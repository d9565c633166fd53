/** The body of the loop over the targets in `main`: check the URL, fetch the
    page, compare its normalised text with the stored snapshot, write a diff
    artifact when it changed, and store the new snapshot. The snapshot folder
    is a map from file name to record. */
module Orchestrator {
  import opened Base
  import opened Sanitize
  import opened Readable
  import opened Lines
  import opened Opcodes
  import opened Highlight
  import Images

  /** A stored snapshot. Records are read back from JSON files, so the two
      fields the comparison reads may be absent. */
  datatype Record = Record(
    name: string,
    url: string,
    retrievedAt: string,
    htmlSource: Option<string>,
    textForDiff: Option<string>,
    imageHashes: map<string, string>)

  /** The browser's answer after its retries: a page source or an error. */
  datatype Fetch = Page(html: string) | FetchFailed(reason: string)

  /** The formatted clock readings: `retrieved_at` and the day and minute used
      in the diff file name. */
  datatype Clock = Clock(retrievedAt: string, day: string, minute: string)

  /** One CSV row, as the two cell strings before trimming. */
  datatype Target = Target(rawName: string, rawUrl: string)

  /** What the outside world supplies for one target: the fetch result, the
      `<img>` tags of the fetched page with what requesting each one gives,
      and the clock. */
  datatype Observation = Observation(fetch: Fetch, images: seq<Images.ImageTag>, clock: Clock)

  datatype Item = Item(target: Target, obs: Observation)

  /** The page-to-text normaliser (parse, drop `script` and `style`,
      `get_text`), the line aligner, the image decoder and the MD5 digest, all
      supplied from outside. */
  datatype Env = Env(
    normalize: string -> string,
    matcher: (seq<string>, seq<string>) -> seq<Opcode>,
    decode: seq<byte> -> Images.Decoded,
    md5: seq<byte> -> Images.HexDigest)

  /** The aligner always returns a well-formed alignment of its inputs. */
  ghost predicate ValidMatcher(matcher: (seq<string>, seq<string>) -> seq<Opcode>) {
    forall a, b :: WellFormed(matcher(a, b), a, b)
  }

  datatype Outcome = Skipped | FetchError | FirstCapture | Unchanged | Changed

  /** A diff file to write: its name, the target name used in its title, and
      the two page sources it compares. Its text is `Document`. */
  datatype Artifact = Artifact(fileName: string, title: string, oldHtml: string, newHtml: string)

  datatype StepResult = StepResult(store: map<string, Record>, artifact: Option<Artifact>, outcome: Outcome)

  /** `re.match(r"^https?://", url)`: a case-sensitive prefix test. */
  predicate IsHttpUrl(url: string) {
    StartsWith(url, "http://") || StartsWith(url, "https://")
  }

  function TargetName(t: Target): string {
    Strip(t.rawName)
  }

  function TargetUrl(t: Target): string {
    Strip(t.rawUrl)
  }

  /** The snapshot file name of a target, `sanitize_filename(name) + ".json"`.
      The loop below is stated for any naming function `keyOf`; this is the
      one the program uses. */
  function StorageKey(name: string): string {
    SanitizeFilename(name) + ".json"
  }

  /** A naming that keeps distinct target names apart. */
  function FixedStorageKey(name: string): string {
    EscapeFilename(name) + ".json"
  }

  /** Whether processing `item` writes the snapshot stored under `key`. */
  predicate Writes(keyOf: string -> string, item: Item, key: string) {
    IsHttpUrl(TargetUrl(item.target)) && item.obs.fetch.Page? && keyOf(TargetName(item.target)) == key
  }

  const Indent := "                "

  /** The HTML page wrapped around the highlighted diff: the f-string's
      lines, each after a newline and the source's indentation. */
  function DiffDocument(name: string, diffHtml: string): string {
    PageHead + TitleLine(name) + PageMid + BodyBlock(diffHtml) + PageTail
  }

  const PageOpen := "\n" + Indent + "<html>\n"
  const PageHead := PageOpen + HeadRest
  const HeadRest := Indent + "<head>\n" + Indent + "<meta charset=\"UTF-8\">\n" + Indent
  const PageMid := "\n" + Indent + "</head>\n" + Indent
  const PageTail := "\n" + Indent + "</html>\n" + Indent

  function TitleLine(name: string): string {
    "<title>Diff for " + name + "</title>"
  }

  function BodyBlock(diffHtml: string): string {
    "<body>\n" + Indent + diffHtml + "\n" + Indent + "</body>"
  }

  /** `diff-<day>-<minute>-<sanitised name>.html`. */
  function DiffFileName(name: string, clock: Clock): string {
    "diff-" + clock.day + "-" + clock.minute + "-" + SanitizeFilename(name) + ".html"
  }

  /** The page opens the `html` element, carries the target name in its
      title and holds the highlighted diff as the content of its body. */
  lemma DocumentLayout(name: string, diffHtml: string)
    ensures StartsWith(DiffDocument(name, diffHtml), PageOpen)
    ensures Occurs(TitleLine(name), DiffDocument(name, diffHtml))
    ensures Occurs(BodyBlock(diffHtml), DiffDocument(name, diffHtml))
  {
    DocumentOpens(name, diffHtml);
    DocumentTitle(name, diffHtml);
    DocumentBody(name, diffHtml);
  }

  lemma DocumentOpens(name: string, diffHtml: string)
    ensures StartsWith(DiffDocument(name, diffHtml), PageOpen)
  {
    var title, body := TitleLine(name), BodyBlock(diffHtml);
    assert StartsWith(PageHead, PageOpen) by {
      assert (PageOpen + HeadRest)[..|PageOpen|] == PageOpen;
    }
    StartsWithExtend(PageHead, PageOpen, title);
    StartsWithExtend(PageHead + title, PageOpen, PageMid);
    StartsWithExtend(PageHead + title + PageMid, PageOpen, body);
    StartsWithExtend(PageHead + title + PageMid + body, PageOpen, PageTail);
  }

  lemma DocumentTitle(name: string, diffHtml: string)
    ensures OccursAt(TitleLine(name), DiffDocument(name, diffHtml), |PageHead|)
  {
    var title := TitleLine(name);
    OccursMiddle(PageHead, title, PageMid);
    OccursExtend(title, PageHead + title + PageMid, BodyBlock(diffHtml), |PageHead|);
    OccursExtend(title, PageHead + title + PageMid + BodyBlock(diffHtml), PageTail, |PageHead|);
  }

  lemma DocumentBody(name: string, diffHtml: string)
    ensures OccursAt(BodyBlock(diffHtml), DiffDocument(name, diffHtml), |PageHead| + |TitleLine(name)| + |PageMid|)
  {
    var before := PageHead + TitleLine(name) + PageMid;
    assert DiffDocument(name, diffHtml) == before + BodyBlock(diffHtml) + PageTail;
    OccursMiddle(before, BodyBlock(diffHtml), PageTail);
  }

  /** With the clock formatted as digits and dashes, the diff file name is a
      valid file name: `diff-`, the day, the minute, the sanitised name and
      `.html`, and no forbidden character anywhere. */
  lemma DiffFileNameSafe(name: string, clock: Clock)
    requires forall i :: 0 <= i < |clock.day| ==> !Forbidden(clock.day[i])
    requires forall i :: 0 <= i < |clock.minute| ==> !Forbidden(clock.minute[i])
    ensures StartsWith(DiffFileName(name, clock), "diff-")
    ensures forall i :: 0 <= i < |DiffFileName(name, clock)| ==> !Forbidden(DiffFileName(name, clock)[i])
    ensures var f := DiffFileName(name, clock);
      |f| >= |name| + 5 && f[|f| - |name| - 5..] == SanitizeFilename(name) + ".html"
  {
    var f := DiffFileName(name, clock);
    var pre := "diff-" + clock.day + "-" + clock.minute + "-";
    var post := SanitizeFilename(name) + ".html";
    assert f == pre + post;
    assert f[..5] == "diff-";
    forall i | 0 <= i < |f| ensures !Forbidden(f[i]) {
      if i < |pre| {
        if 5 <= i < 5 + |clock.day| {
          assert f[i] == clock.day[i - 5];
        } else if 6 + |clock.day| <= i < 6 + |clock.day| + |clock.minute| {
          assert f[i] == clock.minute[i - 6 - |clock.day|];
        }
      } else if i < |pre| + |name| {
        assert f[i] == SanitizeFilename(name)[i - |pre|];
      }
    }
  }

  /** The highlighted diff of two page sources under the environment's aligner. */
  function PageDiff(oldHtml: string, newHtml: string, env: Env): string
    requires ValidMatcher(env.matcher)
  {
    var ops := env.matcher(Keys(SplitLines(oldHtml)), Keys(SplitLines(newHtml)));
    HighlightDiff(oldHtml, newHtml, ops)
  }

  /** The comparison with the snapshot previously stored under the same key;
      an absent `text_for_diff` counts as the empty text. */
  function Compare(prior: Option<Record>, text: string): (o: Outcome)
    ensures o == FirstCapture <==> prior.None?
    ensures o == Changed <==> prior.Some? && prior.value.textForDiff.GetOr("") != text
    ensures o in {FirstCapture, Unchanged, Changed}
  {
    match prior
    case None => FirstCapture
    case Some(rec) => if rec.textForDiff.GetOr("") == text then Unchanged else Changed
  }

  /** The artifact written when the snapshot of `name` changed: it compares
      the two page SOURCES, not the normalised texts. */
  function DiffArtifact(name: string, prior: Record, html: string, clock: Clock): Artifact {
    Artifact(DiffFileName(name, clock), name, prior.htmlSource.GetOr(""), html)
  }

  /** The text of an artifact's file. */
  function Document(a: Artifact, env: Env): string
    requires ValidMatcher(env.matcher)
  {
    DiffDocument(a.title, PageDiff(a.oldHtml, a.newHtml, env))
  }

  /** One iteration of the target loop. */
  function Step(keyOf: string -> string, store: map<string, Record>, item: Item, env: Env): StepResult
  {
    var url := TargetUrl(item.target);
    if !IsHttpUrl(url) then StepResult(store, None, Skipped)
    else if item.obs.fetch.FetchFailed? then StepResult(store, None, FetchError)
    else
      var name, html := TargetName(item.target), item.obs.fetch.html;
      var key, snapshot := keyOf(name), Snapshot(item, env);
      var prior := if key in store then Some(store[key]) else None;
      var outcome := Compare(prior, env.normalize(html));
      var artifact := if outcome == Changed then Some(DiffArtifact(name, prior.value, html, item.obs.clock)) else None;
      StepResult(store[key := snapshot], artifact, outcome)
  }

  /** What one iteration does: an invalid URL is skipped and a failed fetch
      reported, both leaving the snapshots alone; otherwise the new snapshot
      replaces whatever was stored under the target's key, the outcome is a
      first capture when nothing was stored and a change when the stored
      text (absent counting as empty) differs from the new one; an artifact is
      written exactly on a change. */
  lemma StepSpec(keyOf: string -> string, store: map<string, Record>, item: Item, env: Env)
    ensures var r := Step(keyOf, store, item, env);
      r.outcome == Skipped <==> !IsHttpUrl(TargetUrl(item.target))
    ensures var r := Step(keyOf, store, item, env);
      r.outcome == FetchError <==> IsHttpUrl(TargetUrl(item.target)) && item.obs.fetch.FetchFailed?
    ensures var r, key := Step(keyOf, store, item, env), keyOf(TargetName(item.target));
      !Writes(keyOf, item, key) ==> r.store == store && r.artifact.None?
    ensures var r, key := Step(keyOf, store, item, env), keyOf(TargetName(item.target));
      Writes(keyOf, item, key) ==>
        && r.store == store[key := Snapshot(item, env)]
        && (r.outcome == FirstCapture <==> key !in store)
        && (r.outcome == Changed <==> key in store && store[key].textForDiff.GetOr("") != env.normalize(item.obs.fetch.html))
    ensures var r := Step(keyOf, store, item, env);
      r.artifact.Some? <==> r.outcome == Changed
  {
    var r, key := Step(keyOf, store, item, env), keyOf(TargetName(item.target));
    if Writes(keyOf, item, key) {
      var prior := if key in store then Some(store[key]) else None;
      assert r.outcome == Compare(prior, env.normalize(item.obs.fetch.html));
    }
  }

  /** The record saved for a fetched page: the trimmed name and URL, the
      clock reading, the full source, its normalised text and the image
      dictionary computed from the page's `<img>` tags. */
  function Snapshot(item: Item, env: Env): (rec: Record)
    requires item.obs.fetch.Page?
    ensures rec.htmlSource == Some(item.obs.fetch.html)
    ensures rec.textForDiff == Some(env.normalize(item.obs.fetch.html))
    ensures forall src :: src in rec.imageHashes ==> src != ""
  {
    var html := item.obs.fetch.html;
    Record(TargetName(item.target), TargetUrl(item.target), item.obs.clock.retrievedAt, Some(html), Some(env.normalize(html)),
      Images.ImageHashes(item.obs.images, env.decode, env.md5))
  }

  /** The stored image dictionary has a key exactly for each `src` some tag of
      the page records under, holding the entry of the last such tag. */
  lemma SnapshotImages(item: Item, env: Env, src: string)
    requires item.obs.fetch.Page?
    ensures var tags, hashes := item.obs.images, Snapshot(item, env).imageHashes;
      src in hashes <==> exists i :: 0 <= i < |tags| && Images.Records(tags[i], src, env.decode, env.md5)
    ensures var tags, hashes := item.obs.images, Snapshot(item, env).imageHashes;
      src in hashes ==> exists i ::
        && Images.LastRecorder(tags, src, i, env.decode, env.md5)
        && hashes[src] == Images.Render(Images.Classify(tags[i].fetched, env.decode, env.md5).value)
  {
    var tags := item.obs.images;
    assert Snapshot(item, env).imageHashes == Images.ImageHashes(tags, env.decode, env.md5);
    Images.ImageHashesKeys(tags, src, env.decode, env.md5);
    if src in Images.ImageHashes(tags, env.decode, env.md5) {
      Images.ImageHashesLastWins(tags, src, env.decode, env.md5);
    }
  }

  datatype RunResult = RunResult(store: map<string, Record>, artifacts: seq<Artifact>, outcomes: seq<Outcome>)

  /** The whole loop: the targets in CSV order, each step seeing the store the
      previous steps left. */
  function Run(keyOf: string -> string, store: map<string, Record>, items: seq<Item>, env: Env): (r: RunResult)
    ensures |r.outcomes| == |items|
    decreases |items|
  {
    if items == [] then RunResult(store, [], [])
    else
      var s := Step(keyOf, store, items[0], env);
      var rest := Run(keyOf, s.store, items[1..], env);
      var produced := if s.artifact.Some? then [s.artifact.value] else [];
      RunResult(rest.store, produced + rest.artifacts, [s.outcome] + rest.outcomes)
  }

  /** A run over a non-empty list is the first step followed by the run over
      the rest. */
  lemma RunCons(keyOf: string -> string, store: map<string, Record>, items: seq<Item>, env: Env)
    requires items != []
    ensures var s := Step(keyOf, store, items[0], env);
      var rest := Run(keyOf, s.store, items[1..], env);
      && Run(keyOf, store, items, env).store == rest.store
      && Run(keyOf, store, items, env).outcomes == [s.outcome] + rest.outcomes
      && Run(keyOf, store, items, env).artifacts == (if s.artifact.Some? then [s.artifact.value] else []) + rest.artifacts
  {
  }

  /** A step that does not write `key` leaves its snapshot alone. */
  lemma StepFrame(keyOf: string -> string, store: map<string, Record>, item: Item, env: Env, key: string)
    requires !Writes(keyOf, item, key)
    ensures key in Step(keyOf, store, item, env).store <==> key in store
    ensures key in store ==> Step(keyOf, store, item, env).store[key] == store[key]
  {
    var k := keyOf(TargetName(item.target));
    StepStore(keyOf, store, item, env);
    if Writes(keyOf, item, k) {
      assert k != key;
    }
  }

  /** The snapshots after one step. */
  lemma StepStore(keyOf: string -> string, store: map<string, Record>, item: Item, env: Env)
    ensures var k := keyOf(TargetName(item.target));
      Step(keyOf, store, item, env).store == if Writes(keyOf, item, k) then store[k := Snapshot(item, env)] else store
  {
  }

  /** A snapshot that no target of the run writes is left exactly as it was:
      targets interact only through a shared storage key. */
  lemma {:induction false} RunFrame(keyOf: string -> string, store: map<string, Record>, items: seq<Item>, env: Env, key: string)
    requires forall i :: 0 <= i < |items| ==> !Writes(keyOf, items[i], key)
    ensures key in Run(keyOf, store, items, env).store <==> key in store
    ensures key in store ==> Run(keyOf, store, items, env).store[key] == store[key]
    decreases |items|
  {
    if items != [] {
      var s := Step(keyOf, store, items[0], env);
      var tail := items[1..];
      RunCons(keyOf, store, items, env);
      StepFrame(keyOf, store, items[0], env, key);
      forall i | 0 <= i < |tail| ensures !Writes(keyOf, tail[i], key) {
        assert tail[i] == items[i + 1];
      }
      RunFrame(keyOf, s.store, tail, env, key);
    }
  }

  /** `items[i]` writes `key` and no later item does. */
  predicate LastWriter(keyOf: string -> string, items: seq<Item>, key: string, i: int) {
    && 0 <= i < |items|
    && Writes(keyOf, items[i], key)
    && forall k :: i < k < |items| ==> !Writes(keyOf, items[k], key)
  }

  /** After a run the snapshot under `key` is the one saved by the last target
      that wrote it. */
  lemma {:induction false} RunLastWriter(keyOf: string -> string, store: map<string, Record>, items: seq<Item>, env: Env, key: string, i: int)
    requires LastWriter(keyOf, items, key, i)
    ensures key in Run(keyOf, store, items, env).store
    ensures Run(keyOf, store, items, env).store[key] == Snapshot(items[i], env)
    decreases |items|
  {
    var s := Step(keyOf, store, items[0], env);
    var tail := items[1..];
    RunCons(keyOf, store, items, env);
    if i == 0 {
      StepSpec(keyOf, store, items[0], env);
      assert s.store == store[key := Snapshot(items[0], env)];
      forall k | 0 <= k < |tail| ensures !Writes(keyOf, tail[k], key) {
        assert tail[k] == items[k + 1];
      }
      RunFrame(keyOf, s.store, tail, env, key);
    } else {
      assert LastWriter(keyOf, tail, key, i - 1) by {
        assert tail[i - 1] == items[i];
        forall k | i - 1 < k < |tail| ensures !Writes(keyOf, tail[k], key) {
          assert tail[k] == items[k + 1];
        }
      }
      RunLastWriter(keyOf, s.store, tail, env, key, i - 1);
    }
  }

  /** Two targets that write one key share one snapshot: the second is never
      a first capture, it is compared with the FIRST target's text, and its
      own snapshot replaces the first one. */
  lemma SharedKey(keyOf: string -> string, store: map<string, Record>, first: Item, second: Item, env: Env, key: string)
    requires Writes(keyOf, first, key) && Writes(keyOf, second, key)
    ensures Run(keyOf, store, [first, second], env).outcomes[1] != FirstCapture
    ensures Run(keyOf, store, [first, second], env).outcomes[1] == Changed
      <==> env.normalize(first.obs.fetch.html) != env.normalize(second.obs.fetch.html)
    ensures key in Run(keyOf, store, [first, second], env).store
    ensures Run(keyOf, store, [first, second], env).store[key] == Snapshot(second, env)
  {
    var s1 := Step(keyOf, store, first, env);
    var s2 := Step(keyOf, s1.store, second, env);
    RunTwo(keyOf, store, first, second, env);
    assert s1.store == store[key := Snapshot(first, env)] by {
      StepSpec(keyOf, store, first, env);
    }
    assert s2.store == s1.store[key := Snapshot(second, env)] by {
      StepSpec(keyOf, s1.store, second, env);
    }
    StepSpec(keyOf, s1.store, second, env);
  }

  /** A run over two targets is the two steps in order. */
  lemma RunTwo(keyOf: string -> string, store: map<string, Record>, first: Item, second: Item, env: Env)
    ensures var s1 := Step(keyOf, store, first, env);
      var s2 := Step(keyOf, s1.store, second, env);
      && Run(keyOf, store, [first, second], env).store == s2.store
      && Run(keyOf, store, [first, second], env).outcomes == [s1.outcome, s2.outcome]
  {
    var items := [first, second];
    var s1 := Step(keyOf, store, first, env);
    RunCons(keyOf, store, items, env);
    assert items[0] == first && items[1..] == [second];
    RunCons(keyOf, s1.store, [second], env);
    assert [second][1..] == [];
  }

  /** `a/b` and `a:b` are such a pair under the program's naming, whatever
      their URLs. */
  lemma CollidingTargets(url1: string, url2: string)
    ensures TargetName(Target("a/b", url1)) == "a/b" && TargetName(Target("a:b", url2)) == "a:b"
    ensures StorageKey("a/b") == StorageKey("a:b")
  {
    StripUntrimmed("a/b");
    StripUntrimmed("a:b");
    SanitizeNotInjective();
  }

  /** As written: a run over the targets `a/b` and then `a:b`, both fetched,
      treats the second as a revisit of the first and loses the first's
      snapshot. */
  lemma SourceKeyMergesTargets(store: map<string, Record>, first: Item, second: Item, env: Env)
    requires first.target.rawName == "a/b" && second.target.rawName == "a:b"
    requires IsHttpUrl(TargetUrl(first.target)) && first.obs.fetch.Page?
    requires IsHttpUrl(TargetUrl(second.target)) && second.obs.fetch.Page?
    ensures Run(StorageKey, store, [first, second], env).outcomes[1] != FirstCapture
    ensures var key := StorageKey(TargetName(first.target));
      key in Run(StorageKey, store, [first, second], env).store
      && Run(StorageKey, store, [first, second], env).store[key] == Snapshot(second, env)
  {
    var key := StorageKey(TargetName(first.target));
    CollidingTargets(first.target.rawUrl, second.target.rawUrl);
    assert first.target == Target("a/b", first.target.rawUrl);
    assert second.target == Target("a:b", second.target.rawUrl);
    assert Writes(StorageKey, first, key) && Writes(StorageKey, second, key);
    SharedKey(StorageKey, store, first, second, env, key);
  }

  /** Two targets under different keys do not interact: a second target whose
      key holds no snapshot yet is a first capture, and the first target's
      snapshot survives the run. */
  lemma SeparateKeys(keyOf: string -> string, store: map<string, Record>, first: Item, second: Item, env: Env)
    requires Writes(keyOf, first, keyOf(TargetName(first.target)))
    requires Writes(keyOf, second, keyOf(TargetName(second.target)))
    requires keyOf(TargetName(first.target)) != keyOf(TargetName(second.target))
    requires keyOf(TargetName(second.target)) !in store
    ensures Run(keyOf, store, [first, second], env).outcomes[1] == FirstCapture
    ensures var k1 := keyOf(TargetName(first.target));
      k1 in Run(keyOf, store, [first, second], env).store
      && Run(keyOf, store, [first, second], env).store[k1] == Snapshot(first, env)
  {
    var k1, k2 := keyOf(TargetName(first.target)), keyOf(TargetName(second.target));
    var s1 := Step(keyOf, store, first, env);
    var s2 := Step(keyOf, s1.store, second, env);
    RunTwo(keyOf, store, first, second, env);
    assert s1.store == store[k1 := Snapshot(first, env)] by {
      StepSpec(keyOf, store, first, env);
    }
    assert s2.outcome == FirstCapture && s2.store == s1.store[k2 := Snapshot(second, env)] by {
      assert k2 !in s1.store;
      StepSpec(keyOf, s1.store, second, env);
    }
  }

  /** Distinct names never share a corrected key. */
  lemma FixedKeyInjective(a: string, b: string)
    requires FixedStorageKey(a) == FixedStorageKey(b)
    ensures a == b
  {
    var x, y := EscapeFilename(a), EscapeFilename(b);
    assert x == FixedStorageKey(a)[..|x|];
    assert |x| == |y|;
    assert y == FixedStorageKey(b)[..|y|];
    EscapeInjective(a, b);
  }

  /** Corrected: with the injective naming, two fetched targets with different
      names keep separate snapshots, so `a/b` followed by `a:b` gives two
      first captures in an empty folder. */
  lemma FixedRunSeparates(store: map<string, Record>, first: Item, second: Item, env: Env)
    requires TargetName(first.target) != TargetName(second.target)
    requires IsHttpUrl(TargetUrl(first.target)) && first.obs.fetch.Page?
    requires IsHttpUrl(TargetUrl(second.target)) && second.obs.fetch.Page?
    requires FixedStorageKey(TargetName(second.target)) !in store
    ensures Run(FixedStorageKey, store, [first, second], env).outcomes[1] == FirstCapture
    ensures var k1 := FixedStorageKey(TargetName(first.target));
      k1 in Run(FixedStorageKey, store, [first, second], env).store
      && Run(FixedStorageKey, store, [first, second], env).store[k1] == Snapshot(first, env)
  {
    var n1, n2 := TargetName(first.target), TargetName(second.target);
    if FixedStorageKey(n1) == FixedStorageKey(n2) {
      FixedKeyInjective(n1, n2);
    }
    SeparateKeys(FixedStorageKey, store, first, second, env);
  }

  /** The artifact of a changed target: named after the day, the minute and
      the sanitised name, titled with the name, and comparing the stored page
      SOURCE (absent counting as empty) with the new page source. */
  lemma ChangedArtifact(keyOf: string -> string, store: map<string, Record>, item: Item, env: Env)
    requires Step(keyOf, store, item, env).outcome == Changed
    ensures var key, name := keyOf(TargetName(item.target)), TargetName(item.target);
      && item.obs.fetch.Page? && key in store
      && Step(keyOf, store, item, env).artifact
        == Some(Artifact(DiffFileName(name, item.obs.clock), name, store[key].htmlSource.GetOr(""), item.obs.fetch.html))
  {
    StepSpec(keyOf, store, item, env);
  }

  /** The aligner lines up any key sequence with itself as `equal` regions. */
  ghost predicate AlignsSelfEqual(matcher: (seq<string>, seq<string>) -> seq<Opcode>) {
    forall a, k :: 0 <= k < |matcher(a, a)| ==> matcher(a, a)[k].tag == Equal
  }

  /** The reference aligner meets both requirements. */
  lemma ReferenceMatcher()
    ensures ValidMatcher((a, b) => PrefixSuffixMatcher(a, b))
    ensures AlignsSelfEqual((a, b) => PrefixSuffixMatcher(a, b))
  {
    forall a: seq<string> ensures forall k :: 0 <= k < |PrefixSuffixMatcher(a, a)| ==> PrefixSuffixMatcher(a, a)[k].tag == Equal {
      if a != [] {
        MatcherIdentity(a);
      } else {
        assert CommonPrefix(a, a) == 0;
      }
    }
  }

  /** The decision reads the normalised texts but the artifact diffs the
      sources: when the stored text differs from the new one while the stored
      source is the very page just fetched, a diff is still written, and it
      highlights nothing. */
  lemma ChangeWithSameSource(keyOf: string -> string, store: map<string, Record>, item: Item, env: Env)
    requires ValidMatcher(env.matcher) && AlignsSelfEqual(env.matcher)
    requires Writes(keyOf, item, keyOf(TargetName(item.target)))
    requires keyOf(TargetName(item.target)) in store
    requires store[keyOf(TargetName(item.target))].htmlSource == Some(item.obs.fetch.html)
    requires store[keyOf(TargetName(item.target))].textForDiff.GetOr("") != env.normalize(item.obs.fetch.html)
    ensures Step(keyOf, store, item, env).outcome == Changed
    ensures Document(Step(keyOf, store, item, env).artifact.value, env)
      == DiffDocument(TargetName(item.target), MetaPrefix + item.obs.fetch.html)
  {
    var html := item.obs.fetch.html;
    var lines := Keys(SplitLines(html));
    StepSpec(keyOf, store, item, env);
    ChangedArtifact(keyOf, store, item, env);
    HighlightAllEqual(html, html, env.matcher(lines, lines));
  }

  /** The run writes one artifact per `Changed` outcome. */
  lemma {:induction false} RunArtifacts(keyOf: string -> string, store: map<string, Record>, items: seq<Item>, env: Env)
    ensures |Run(keyOf, store, items, env).artifacts| == CountChanged(Run(keyOf, store, items, env).outcomes)
    decreases |items|
  {
    if items != [] {
      var s := Step(keyOf, store, items[0], env);
      var rest := Run(keyOf, s.store, items[1..], env);
      RunCons(keyOf, store, items, env);
      StepSpec(keyOf, store, items[0], env);
      RunArtifacts(keyOf, s.store, items[1..], env);
      assert ([s.outcome] + rest.outcomes)[1..] == rest.outcomes;
    }
  }

  function CountChanged(outcomes: seq<Outcome>): nat {
    if outcomes == [] then 0 else (if outcomes[0] == Changed then 1 else 0) + CountChanged(outcomes[1..])
  }

  /** A URL cell with blanks around it is trimmed to the bare URL. */
  lemma UrlCellTrimmed()
    ensures TargetUrl(Target("n", " http://a ")) == "http://a"
  {
    assert " http://a " == " " + "http://a" + " ";
    StripPadded("http://a");
    assert Target("n", " http://a ").rawUrl == " http://a ";
  }

  /** Trimming and the scheme test: a scheme in upper case is rejected, and the
      cells are trimmed before the test, so a URL cell with leading blanks is
      accepted. */
  lemma UrlCheck()
    ensures IsHttpUrl("https://example.com") && IsHttpUrl("http://a")
    ensures !IsHttpUrl("HTTP://a") && !IsHttpUrl("ftp://a") && !IsHttpUrl(" http://a")
    ensures IsHttpUrl(TargetUrl(Target("n", " http://a ")))
  {
    UrlCellTrimmed();
    assert "https://example.com"[..8] == "https://";
    assert "http://a"[..7] == "http://";
    DiffersAt(" http://a", "http://", 0);
    DiffersAt(" http://a", "https://", 0);
  }
}
