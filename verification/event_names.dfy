/** The event-name rule (`epv_test_validate_event_names`): a directory rule that
    collects the events declared in the extension's PHP files and checks every
    event name against the reserved vendor prefixes and the extension's own
    vendor prefix, reporting through an append-only stream of outputs. */
module EventNames {
  import opened Wrappers
  import opened PhpStrings

  datatype Severity = Notice | Warning | Error | Fatal

  /** One event found by the extractor: the name that is checked, the file that
      declares it, and the event as quoted in messages. */
  datatype EventRecord = EventRecord(name: string, file: string, event: string)

  /** What the extractor makes of one file: the events it declares, or a
      failure, with whatever events it had already recorded from that file. */
  datatype Extraction =
    | Extracted(events: seq<EventRecord>)
    | ExtractionFailed(partial: seq<EventRecord>)

  /** What the rule sends to the output: expected progress declared up front
      (`inMaxPogress`), a message, or a pass tick (`printErrorLevel`). */
  datatype Output =
    | InMaxProgress(units: nat)
    | Message(severity: Severity, file: string, event: string)
    | PassTick

  /** The crawl over the listing: the files handed to the extractor in order,
      the events collected from them, and the file whose extraction failed. */
  datatype Crawl = Crawl(visited: seq<string>, events: seq<EventRecord>, failedAt: Option<string>)

  /** The listing entries the rule crawls: those whose last four characters are `.php`. */
  predicate IsPhpFile(path: string) {
    Tail(path, 4) == ".php"
  }

  /** The PHP files of a listing, in listing order. */
  function PhpFiles(dirList: seq<string>): (fs: seq<string>)
    ensures forall f :: f in fs <==> f in dirList && IsPhpFile(f)
    decreases |dirList|
  {
    if |dirList| == 0 then []
    else (if IsPhpFile(dirList[0]) then [dirList[0]] else []) + PhpFiles(dirList[1..])
  }

  /** Filtering a listing in two parts is filtering each part, in order: the
      PHP files keep their listing order and each appears as often as it is listed. */
  lemma {:induction false} PhpFilesAppend(a: seq<string>, b: seq<string>)
    ensures PhpFiles(a + b) == PhpFiles(a) + PhpFiles(b)
    decreases |a|
  {
    if |a| == 0 {
      assert a + b == b;
    } else {
      assert (a + b)[0] == a[0];
      assert (a + b)[1..] == a[1..] + b;
      PhpFilesAppend(a[1..], b);
    }
  }

  /** The PHP files of a single entry: the entry itself when it ends in `.php`, nothing otherwise. */
  lemma PhpFilesOfOne(f: string)
    ensures PhpFiles([f]) == if IsPhpFile(f) then [f] else []
  {
    assert [f][1..] == [];
  }

  /** The events the extractor holds after being given `visited`, in order. */
  function Collected(visited: seq<string>, extractor: string -> Extraction): seq<EventRecord>
    decreases |visited|
  {
    if |visited| == 0 then []
    else
      var found := match extractor(visited[0])
        case Extracted(es) => es
        case ExtractionFailed(partial) => partial;
      found + Collected(visited[1..], extractor)
  }

  /** The `try` around the loop over the listing: every PHP file is handed to
      the extractor in order, and the first failure ends the whole crawl. */
  function CrawlFiles(dirList: seq<string>, extractor: string -> Extraction): (c: Crawl)
    ensures c.visited <= PhpFiles(dirList)
    ensures c.failedAt.None? ==> c.visited == PhpFiles(dirList)
    ensures c.failedAt.Some? ==>
              |c.visited| > 0 && c.failedAt.value == c.visited[|c.visited| - 1]
              && extractor(c.failedAt.value).ExtractionFailed?
    ensures forall i :: 0 <= i < |c.visited| && (c.failedAt.None? || i < |c.visited| - 1) ==>
              extractor(c.visited[i]).Extracted?
    ensures c.events == Collected(c.visited, extractor)
  {
    CrawlList(PhpFiles(dirList), extractor)
  }

  /** Hands `files` to the extractor one after another, stopping after the
      first one it cannot extract. */
  function CrawlList(files: seq<string>, extractor: string -> Extraction): (c: Crawl)
    ensures c.visited <= files
    ensures c.failedAt.None? ==> c.visited == files
    ensures c.failedAt.Some? ==>
              |c.visited| > 0 && c.failedAt.value == c.visited[|c.visited| - 1]
              && extractor(c.failedAt.value).ExtractionFailed?
    ensures forall i :: 0 <= i < |c.visited| && (c.failedAt.None? || i < |c.visited| - 1) ==>
              extractor(c.visited[i]).Extracted?
    ensures c.events == Collected(c.visited, extractor)
    decreases |files|
  {
    if |files| == 0 then Crawl([], [], None)
    else
      var f := files[0];
      match extractor(f)
      case ExtractionFailed(partial) =>
        assert Collected([f], extractor) == partial + Collected([], extractor);
        Crawl([f], partial, Some(f))
      case Extracted(es) =>
        var rest := CrawlList(files[1..], extractor);
        var visited := [f] + rest.visited;
        assert visited[1..] == rest.visited;
        assert forall i :: 1 <= i < |visited| ==> visited[i] == rest.visited[i - 1];
        assert Collected(visited, extractor) == es + Collected(rest.visited, extractor);
        assert files == [f] + files[1..];
        Crawl(visited, es + rest.events, rest.failedAt)
  }

  /** The crawl fails exactly when some PHP file of the listing cannot be extracted. */
  lemma CrawlFailsIffSomeFileFails(dirList: seq<string>, extractor: string -> Extraction)
    ensures CrawlFiles(dirList, extractor).failedAt.Some? <==>
              exists f :: f in PhpFiles(dirList) && extractor(f).ExtractionFailed?
  {
    var c := CrawlFiles(dirList, extractor);
    if c.failedAt.Some? {
      var f := c.visited[|c.visited| - 1];
      assert f == PhpFiles(dirList)[|c.visited| - 1];
      assert f in PhpFiles(dirList);
    } else {
      forall f | f in PhpFiles(dirList) ensures extractor(f).Extracted? {
        var i :| 0 <= i < |c.visited| && c.visited[i] == f;
      }
    }
  }

  /** The vendor prefix event names must carry: the namespace with every '/'
      turned into '.'. */
  function Vendor(namespace: string): (v: string)
    ensures |v| == |namespace|
    ensures forall i :: 0 <= i < |v| ==> v[i] == if namespace[i] == '/' then '.' else namespace[i]
  {
    ReplaceSingleChar(namespace, '/', '.');
    ReplaceAll(namespace, "/", ".")
  }

  /** The reserved-prefix check: `phpbb` (any case) is an ERROR, otherwise `core`
      (any case) is FATAL, otherwise the event passes. */
  function ReservedCheck(e: EventRecord): Output {
    if Lower(Head(e.name, 5)) == "phpbb" then Message(Error, e.file, e.event)
    else if Lower(Head(e.name, 4)) == "core" then Message(Fatal, e.file, e.event)
    else PassTick
  }

  /** The vendor-prefix check: a WARNING unless the name starts with the vendor
      prefix, compared case-insensitively on the name's side only. */
  function VendorCheck(e: EventRecord, vendor: string): Output {
    if Lower(Head(e.name, |vendor|)) != vendor then Message(Warning, e.file, e.event)
    else PassTick
  }

  /** The reserved-prefix check yields exactly one of ERROR, FATAL or a pass
      tick: ERROR for a name starting with `phpbb` in any case, FATAL for one
      starting with `core` in any case but not `phpbb`, a tick otherwise. */
  lemma ReservedCheckClassifies(e: EventRecord)
    ensures ReservedCheck(e) == Message(Error, e.file, e.event) <==> StartsWithIgnoringCase(e.name, "phpbb")
    ensures ReservedCheck(e) == Message(Fatal, e.file, e.event) <==>
              !StartsWithIgnoringCase(e.name, "phpbb") && StartsWithIgnoringCase(e.name, "core")
    ensures ReservedCheck(e) == PassTick <==>
              !StartsWithIgnoringCase(e.name, "phpbb") && !StartsWithIgnoringCase(e.name, "core")
  {
    LowerHeadIsPrefixTest(e.name, "phpbb");
    LowerHeadIsPrefixTest(e.name, "core");
  }

  /** The vendor-prefix check warns exactly when the name does not start with
      the vendor prefix, and otherwise yields a pass tick. */
  lemma VendorCheckClassifies(e: EventRecord, vendor: string)
    ensures VendorCheck(e, vendor) == Message(Warning, e.file, e.event) <==> !StartsWithIgnoringCase(e.name, vendor)
    ensures VendorCheck(e, vendor) == PassTick <==> StartsWithIgnoringCase(e.name, vendor)
  {
    LowerHeadIsPrefixTest(e.name, vendor);
  }

  /** The loop over the events: two outputs per event, no progress
      declarations; `EventChecksInOrder` says which outputs, and in which order. */
  function EventChecks(events: seq<EventRecord>, vendor: string): (o: seq<Output>)
    ensures |o| == 2 * |events|
    decreases |events|
  {
    if |events| == 0 then []
    else [ReservedCheck(events[0]), VendorCheck(events[0], vendor)] + EventChecks(events[1..], vendor)
  }

  /** Event i yields outputs 2i and 2i+1: the reserved-prefix check's first,
      then the vendor-prefix check's, so events are checked in extractor order. */
  lemma {:induction false} EventChecksInOrder(events: seq<EventRecord>, vendor: string)
    ensures forall i :: 0 <= i < |events| ==>
              EventChecks(events, vendor)[2 * i] == ReservedCheck(events[i])
              && EventChecks(events, vendor)[2 * i + 1] == VendorCheck(events[i], vendor)
    decreases |events|
  {
    if |events| > 0 {
      var o := EventChecks(events, vendor);
      var rest := EventChecks(events[1..], vendor);
      EventChecksInOrder(events[1..], vendor);
      forall i | 1 <= i < |events|
        ensures o[2 * i] == ReservedCheck(events[i]) && o[2 * i + 1] == VendorCheck(events[i], vendor)
      {
        assert events[i] == events[1..][i - 1];
        assert o[2 * i] == rest[2 * (i - 1)];
        assert o[2 * i + 1] == rest[2 * (i - 1) + 1];
      }
    }
  }

  /** `validateDirectory`: crawl the PHP files; on an extraction failure declare
      one unit and report it as FATAL; then declare two units per collected
      event, and check every event, failure or not. */
  function ValidateDirectory(dirList: seq<string>, namespace: string, extractor: string -> Extraction)
    : (out: seq<Output>)
    ensures var c := CrawlFiles(dirList, extractor);
            var h := if c.failedAt.Some? then 2 else 0;
            && |out| == h + 1 + 2 * |c.events|
            && (c.failedAt.Some? ==>
                  out[0] == InMaxProgress(1) && out[1] == Message(Fatal, c.failedAt.value, ""))
            && out[h] == InMaxProgress(2 * |c.events|)
            && out[h + 1..] == EventChecks(c.events, Vendor(namespace))
  {
    var c := CrawlFiles(dirList, extractor);
    var failure := if c.failedAt.Some? then [InMaxProgress(1), Message(Fatal, c.failedAt.value, "")] else [];
    var checks := EventChecks(c.events, Vendor(namespace));
    var out := failure + [InMaxProgress(2 * |c.events|)] + checks;
    assert out[|failure| + 1..] == checks;
    out
  }

  /*
   * Progress accounting: the units the rule declares against the outputs it emits.
   */

  /** The progress units declared in a stretch of output. */
  function Declared(out: seq<Output>): nat
    decreases |out|
  {
    if |out| == 0 then 0
    else (if out[0].InMaxProgress? then out[0].units else 0) + Declared(out[1..])
  }

  /** The outputs that consume a unit of progress: messages and pass ticks. */
  function Reported(out: seq<Output>): nat
    decreases |out|
  {
    if |out| == 0 then 0
    else (if out[0].InMaxProgress? then 0 else 1) + Reported(out[1..])
  }

  lemma {:induction false} CountsAdd(a: seq<Output>, b: seq<Output>)
    ensures Declared(a + b) == Declared(a) + Declared(b)
    ensures Reported(a + b) == Reported(a) + Reported(b)
    decreases |a|
  {
    if |a| == 0 {
      assert a + b == b;
    } else {
      assert (a + b)[0] == a[0];
      assert (a + b)[1..] == a[1..] + b;
      CountsAdd(a[1..], b);
    }
  }

  /** The event checks declare nothing and emit one unit per check. */
  lemma {:induction false} EventChecksCount(events: seq<EventRecord>, vendor: string)
    ensures Declared(EventChecks(events, vendor)) == 0
    ensures Reported(EventChecks(events, vendor)) == 2 * |events|
    decreases |events|
  {
    if |events| > 0 {
      var pair := [ReservedCheck(events[0]), VendorCheck(events[0], vendor)];
      var rest := EventChecks(events[1..], vendor);
      assert EventChecks(events, vendor) == pair + rest;
      CountsAdd(pair, rest);
      EventChecksCount(events[1..], vendor);
      assert Declared(pair) == 0 && Reported(pair) == 2 by {
        assert pair[1..][1..] == [];
      }
    }
  }

  /** Progress balances: the rule declares exactly as many units as it emits
      messages and pass ticks, whether or not the crawl failed. */
  lemma ProgressBalances(dirList: seq<string>, namespace: string, extractor: string -> Extraction)
    ensures var out := ValidateDirectory(dirList, namespace, extractor);
            Declared(out) == Reported(out)
  {
    var c := CrawlFiles(dirList, extractor);
    var failure := if c.failedAt.Some? then [InMaxProgress(1), Message(Fatal, c.failedAt.value, "")] else [];
    var checks := EventChecks(c.events, Vendor(namespace));
    var declare := [InMaxProgress(2 * |c.events|)];
    assert ValidateDirectory(dirList, namespace, extractor) == failure + declare + checks;
    CountsAdd(failure + declare, checks);
    CountsAdd(failure, declare);
    EventChecksCount(c.events, Vendor(namespace));
    assert Declared(failure) == Reported(failure) by {
      if c.failedAt.Some? {
        assert failure[1..][1..] == [];
      }
    }
    assert declare[1..] == [];
  }

  /** A vendor prefix holding an upper-case letter is never matched, so every
      event draws the warning. */
  lemma UppercaseVendorAlwaysWarns(e: EventRecord, namespace: string, i: nat)
    requires i < |namespace| && IsUpper(namespace[i])
    ensures VendorCheck(e, Vendor(namespace)) == Message(Warning, e.file, e.event)
  {
    var vendor := Vendor(namespace);
    VendorCheckClassifies(e, vendor);
    assert IsUpper(vendor[i]);
    if |e.name| >= |vendor| {
      LowerIsPointwise(e.name[..|vendor|]);
    }
    assert |e.name| >= |vendor| ==> !IsUpper(Lower(e.name[..|vendor|])[i]);
  }

  /** `phpbbFoo` in namespace `acme/demo`: one ERROR and one WARNING. */
  lemma OfficialVendorEvent(file: string, event: string)
    ensures var e := EventRecord("phpbbFoo", file, event);
            && ReservedCheck(e) == Message(Error, file, event)
            && VendorCheck(e, Vendor("acme/demo")) == Message(Warning, file, event)
  {
    var name := "phpbbFoo";
    var head := Head(name, 5);
    assert head == "phpbb";
    LowerIsPointwise(head);
    assert Lower(head) == "phpbb";
    var vendor := Vendor("acme/demo");
    assert |Head(name, |vendor|)| == 8;
  }

  /** `core.foo`: one FATAL from the reserved-prefix check, whatever the namespace. */
  lemma CoreEvent(file: string, event: string)
    ensures ReservedCheck(EventRecord("core.foo", file, event)) == Message(Fatal, file, event)
  {
    var name := "core.foo";
    ReservedCheckClassifies(EventRecord(name, file, event));
    assert name[..4] == "core";
    assert Lower("core") == "core";
    assert Lower(name[..5])[0] == 'c';
  }

  /** The namespace `acme/demo` asks for the vendor prefix `acme.demo`. */
  lemma AcmeDemoVendor()
    ensures Vendor("acme/demo") == "acme.demo"
  {
    var v := Vendor("acme/demo");
    forall i | 0 <= i < 9 ensures v[i] == "acme.demo"[i] {
    }
  }

  /** `acme.demo.widget.created` in namespace `acme/demo`: two pass ticks. */
  lemma CompliantEvent(file: string, event: string)
    ensures var e := EventRecord("acme.demo.widget.created", file, event);
            && ReservedCheck(e) == PassTick
            && VendorCheck(e, Vendor("acme/demo")) == PassTick
  {
    var e := EventRecord("acme.demo.widget.created", file, event);
    NotReserved(e);
    AcmeDemoVendor();
    var h9 := Head(e.name, 9);
    assert h9 == "acme.demo";
    LowerKeepsLowercase(h9);
  }

  /** A name whose first character is not a letter of `phpbb` or `core` in
      any case passes the reserved-prefix check. */
  lemma NotReserved(e: EventRecord)
    requires |e.name| > 0 && LowerChar(e.name[0]) !in {'p', 'c'}
    ensures ReservedCheck(e) == PassTick
  {
    LowerIsPointwise(Head(e.name, 5));
    LowerIsPointwise(Head(e.name, 4));
  }
}
