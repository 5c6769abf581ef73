/** The publisher: the loop of `main` over the feed's entries, newest last, with
    the dedup check, the age window, the text pipeline, the post call and the
    ledger append. */
module Publisher {
  import opened Outcomes
  import opened Toots
  import opened Media
  import opened Dedup

  /** The options of a run. `tags` is the tag block already formatted by
      `TagBlock`. */
  datatype Config = Config(source: string, username: string, instance: string,
                           days: int, delay: int, tags: string)

  type PostId = string

  /** The text and the media ids of a post. */
  type Prepared = (string, seq<MediaId>)

  /** Everything outside the model: the feed parser, media download and upload,
      the redirect probe and the posting API. A post call answers with the
      response's id if it has one, or raises. */
  datatype Oracles = Oracles(parse: string -> seq<Entry>,
                             media: MediaOracles,
                             probe: string -> CallResult<Response>,
                             post: (string, seq<MediaId>) -> CallResult<Option<PostId>>)

  /** A run's fixed surroundings: its options, the clock and the oracles.
      `clock(n)` is what the run's `n`-th call of `datetime.now()` returns,
      counting from 0, in microseconds. */
  datatype Env = Env(cfg: Config, clock: nat -> int, oracles: Oracles)

  /** One call of the posting API: the entry, the clock reading its age was
      measured against, what was sent and what came back. */
  datatype Attempt = Attempt(entry: Entry, now: int, text: string, media: seq<MediaId>,
                             answer: CallResult<Option<PostId>>)

  /** The answer carried a post id. */
  predicate Succeeded(a: Attempt) {
    a.answer.Ok? && a.answer.value.Some?
  }

  /** The observable state of a run: the ledger, the post calls made so far,
      whether an exception has ended the run, and how many times the clock has
      been read. */
  datatype RunState = RunState(records: seq<Record>, attempts: seq<Attempt>, aborted: bool, readings: nat)

  const MicrosPerSecond := 1_000_000
  const MicrosPerDay := 86_400 * MicrosPerSecond
  /** The largest day count a `timedelta` accepts. */
  const MaxDays := 999_999_999

  predicate DaysInRange(d: int) {
    -MaxDays <= d <= MaxDays
  }

  /** `datetime.now() - published` in microseconds. */
  function AgeMicros(now: int, published: int): int {
    now - published * MicrosPerSecond
  }

  datatype Verdict = Skip | Publish | Overflow

  /** The test of the loop, evaluated left to right as `and` does: processed
      entries are skipped before any age test; `timedelta(days=...)` raises for a
      day count out of range, and the delay bound is only built when the upper
      bound held. */
  function Eligibility(processed: bool, age: int, days: int, delay: int): (v: Verdict)
    ensures v == Publish <==> && !processed && DaysInRange(days) && DaysInRange(delay)
                              && age < days * MicrosPerDay && age > delay * MicrosPerDay
    ensures v == Overflow <==> && !processed
                               && (!DaysInRange(days) || (age < days * MicrosPerDay && !DaysInRange(delay)))
  {
    if processed then Skip
    else if !DaysInRange(days) then Overflow
    else if !(age < days * MicrosPerDay) then Skip
    else if !DaysInRange(delay) then Overflow
    else if age > delay * MicrosPerDay then Publish
    else Skip
  }

  /** Both ends of the window are strict: an entry exactly `days` or exactly
      `delay` days old is not published. */
  lemma WindowIsStrict(days: int, delay: int)
    ensures Eligibility(false, days * MicrosPerDay, days, delay) != Publish
    ensures Eligibility(false, delay * MicrosPerDay, days, delay) != Publish
  {
  }

  function KeyOf(e: Entry, cfg: Config): Key {
    Key(e.id, cfg.source, cfg.username, cfg.instance)
  }

  /** The loop's verdict on `e` against the ledger `records` when the clock
      reads `now`. */
  function VerdictOf(records: seq<Record>, e: Entry, env: Env, now: int): Verdict {
    Eligibility(Processed(records, KeyOf(e, env.cfg)), AgeMicros(now, e.published),
                env.cfg.days, env.cfg.delay)
  }

  /** Whether the loop publishes `e` against the ledger `records` when the clock
      reads `now`. */
  predicate Publishable(records: seq<Record>, e: Entry, env: Env, now: int) {
    VerdictOf(records, e, env, now) == Publish
  }

  /** The ledger rows an attempt leads to: one exactly when it succeeded. */
  function RecordFor(a: Attempt, cfg: Config): seq<Record> {
    if Succeeded(a) then [Record(a.entry.id, a.answer.value.value, cfg.source, cfg.username, cfg.instance)]
    else []
  }

  function RecordsOf(attempts: seq<Attempt>, cfg: Config): seq<Record>
    decreases |attempts|
  {
    if attempts == [] then []
    else RecordsOf(attempts[..|attempts| - 1], cfg) + RecordFor(attempts[|attempts| - 1], cfg)
  }

  /** The pictures, then the text, of an entry; either may raise. */
  function Prepare(e: Entry, env: Env): CallResult<Prepared> {
    match Pictures(PictureUrls(e.summary), env.oracles.media)
    case Raised => Raised
    case Ok(media) =>
      match PostText(e, ResolveSource(env.cfg.source).1, env.cfg.tags, env.oracles.probe)
      case Raised => Raised
      case Ok(text) => Ok((text, media))
  }

  /** One turn of the loop; `prepared` is what `Prepare` gives for `e`. A turn
      of a live run reads the clock once; then it skips `e`, or only ends the
      run, or makes exactly one post call for `e`, with the prepared text and
      media, and appends its row when the call returned an id. */
  function Step(st: RunState, e: Entry, env: Env, prepared: CallResult<Prepared>): (r: RunState)
    ensures st.aborted ==> r == st
    ensures !st.aborted ==> r.readings == st.readings + 1
    ensures var v := VerdictOf(st.records, e, env, env.clock(st.readings));
            !st.aborted && v == Skip ==> r == st.(readings := st.readings + 1)
    ensures var v := VerdictOf(st.records, e, env, env.clock(st.readings));
            r.aborted <==> || st.aborted
                           || v == Overflow
                           || (v == Publish && (|| prepared.Raised?
                                                || env.oracles.post(prepared.value.0, prepared.value.1).Raised?))
    ensures |st.attempts| <= |r.attempts| <= |st.attempts| + 1
    ensures |r.attempts| == |st.attempts| ==> r.attempts == st.attempts && r.records == st.records
    ensures |r.attempts| == |st.attempts| + 1 <==>
              !st.aborted && Publishable(st.records, e, env, env.clock(st.readings)) && prepared.Ok?
    ensures !st.aborted && Publishable(st.records, e, env, env.clock(st.readings)) && prepared.Ok? ==>
              var (text, media) := prepared.value;
              var a := Attempt(e, env.clock(st.readings), text, media, env.oracles.post(text, media));
              && r.attempts == st.attempts + [a]
              && r.records == st.records + RecordFor(a, env.cfg)
  {
    if st.aborted then st
    else
      var now := env.clock(st.readings);
      var read := st.(readings := st.readings + 1);
      match VerdictOf(st.records, e, env, now)
      case Skip => read
      case Overflow => read.(aborted := true)
      case Publish =>
        match prepared
        case Raised => read.(aborted := true)
        case Ok((text, media)) =>
          var a := Attempt(e, now, text, media, env.oracles.post(text, media));
          RunState(st.records + RecordFor(a, env.cfg), st.attempts + [a], a.answer.Raised?, read.readings)
  }

  function Preparation(env: Env): Entry -> CallResult<Prepared> {
    e => Prepare(e, env)
  }

  /** The loop over `visits`, in order. Preparing a post does not depend on the
      ledger, so the fold takes the preparation as a parameter `prepare`. */
  function Visit(st: RunState, visits: seq<Entry>, env: Env, prepare: Entry -> CallResult<Prepared>): RunState
    decreases |visits|
  {
    if visits == [] then st
    else Step(Visit(st, visits[..|visits| - 1], env, prepare), visits[|visits| - 1], env, prepare(visits[|visits| - 1]))
  }

  /** `reversed(s)`. */
  function Reversed<T>(s: seq<T>): seq<T> {
    seq(|s|, j requires 0 <= j < |s| => s[|s| - 1 - j])
  }

  function Start(records: seq<Record>): RunState {
    RunState(records, [], false, 0)
  }

  /** The entries of the feed a run reads. */
  function Feed(env: Env): seq<Entry> {
    env.oracles.parse(ResolveSource(env.cfg.source).0)
  }

  /** A run over the feed, newest entry last, with any preparation of posts. */
  function RunWith(records: seq<Record>, env: Env, prepare: Entry -> CallResult<Prepared>): RunState {
    Visit(Start(records), Reversed(Feed(env)), env, prepare)
  }

  /** What one run does to a ledger holding `records`. The properties below are
      proved of `RunWith` for every `prepare`, so of `RunSpec` in particular. */
  function RunSpec(records: seq<Record>, env: Env): RunState {
    RunWith(records, env, Preparation(env))
  }

  lemma ReversedConcat<T>(xs: seq<T>, ys: seq<T>)
    ensures Reversed(xs + ys) == Reversed(ys) + Reversed(xs)
  {
    var l, r := Reversed(xs + ys), Reversed(ys) + Reversed(xs);
    forall j | 0 <= j < |l| ensures l[j] == r[j] {
      if j < |ys| {
        assert l[j] == ys[|ys| - 1 - j];
      } else {
        assert l[j] == xs[|xs| + |ys| - 1 - j];
      }
    }
  }

  lemma RecordsOfAppend(attempts: seq<Attempt>, a: Attempt, cfg: Config)
    ensures RecordsOf(attempts + [a], cfg) == RecordsOf(attempts, cfg) + RecordFor(a, cfg)
  {
    assert (attempts + [a])[..|attempts|] == attempts;
  }

  /** The rows written for some attempts process a key exactly when one of those
      attempts succeeded for that key. */
  lemma {:induction false} RecordsOfProcessed(attempts: seq<Attempt>, cfg: Config, k: Key)
    ensures Processed(RecordsOf(attempts, cfg), k) <==>
            exists i :: 0 <= i < |attempts| && Succeeded(attempts[i]) && KeyOf(attempts[i].entry, cfg) == k
    decreases |attempts|
  {
    if attempts != [] {
      var n := |attempts| - 1;
      var init, a := attempts[..n], attempts[n];
      assert attempts == init + [a];
      RecordsOfProcessed(init, cfg, k);
      ProcessedConcat(RecordsOf(init, cfg), RecordFor(a, cfg), k);
      if Succeeded(a) {
        assert Processed(RecordFor(a, cfg), k) <==> RecordFor(a, cfg)[0].KeyOf() == k;
      } else {
        assert !Processed(RecordFor(a, cfg), k);
      }
      if exists i :: 0 <= i < |attempts| && Succeeded(attempts[i]) && KeyOf(attempts[i].entry, cfg) == k {
        var i :| 0 <= i < |attempts| && Succeeded(attempts[i]) && KeyOf(attempts[i].entry, cfg) == k;
        if i < n {
          assert init[i] == attempts[i];
        }
      }
      if exists i :: 0 <= i < |init| && Succeeded(init[i]) && KeyOf(init[i].entry, cfg) == k {
        var i :| 0 <= i < |init| && Succeeded(init[i]) && KeyOf(init[i].entry, cfg) == k;
        assert attempts[i] == init[i];
      }
    }
  }

  /** Once a run has aborted, the remaining visits do nothing. */
  lemma {:induction false} VisitAborted(st: RunState, visits: seq<Entry>, env: Env, prepare: Entry -> CallResult<Prepared>)
    requires st.aborted
    ensures Visit(st, visits, env, prepare) == st
    decreases |visits|
  {
    if visits != [] {
      VisitAborted(st, visits[..|visits| - 1], env, prepare);
    }
  }

  /** Visiting `xs` and then `ys` is visiting `xs + ys`. */
  lemma {:induction false} VisitConcat(st: RunState, xs: seq<Entry>, ys: seq<Entry>, env: Env, prepare: Entry -> CallResult<Prepared>)
    ensures Visit(st, xs + ys, env, prepare) == Visit(Visit(st, xs, env, prepare), ys, env, prepare)
    decreases |ys|
  {
    if ys == [] {
      assert xs + ys == xs;
    } else {
      var n := |ys| - 1;
      VisitConcat(st, xs, ys[..n], env, prepare);
      assert (xs + ys)[..|xs + ys| - 1] == xs + ys[..n];
      assert (xs + ys)[|xs + ys| - 1] == ys[n];
    }
  }

  /** From an empty run, the ledger grows by exactly the rows of the post calls
      that returned an id, in call order. */
  lemma {:induction false} VisitGrows(records: seq<Record>, visits: seq<Entry>, env: Env, prepare: Entry -> CallResult<Prepared>)
    ensures var r := Visit(Start(records), visits, env, prepare);
            r.records == records + RecordsOf(r.attempts, env.cfg)
    decreases |visits|
  {
    if visits == [] {
      assert records + RecordsOf([], env.cfg) == records;
    } else {
      var n := |visits| - 1;
      var m := Visit(Start(records), visits[..n], env, prepare);
      VisitGrows(records, visits[..n], env, prepare);
      var r := Step(m, visits[n], env, prepare(visits[n]));
      assert r == Visit(Start(records), visits, env, prepare);
      if |r.attempts| == |m.attempts| + 1 {
        var a := r.attempts[|m.attempts|];
        RecordsOfAppend(m.attempts, a, env.cfg);
        assert r.records == (records + RecordsOf(m.attempts, env.cfg)) + RecordFor(a, env.cfg);
      }
    }
  }

  /** A run from its start reads the clock once per visit until it aborts. */
  lemma {:induction false} VisitReadings(records: seq<Record>, visits: seq<Entry>, env: Env, prepare: Entry -> CallResult<Prepared>)
    ensures var r := Visit(Start(records), visits, env, prepare);
            && r.readings <= |visits|
            && (!r.aborted ==> r.readings == |visits|)
    decreases |visits|
  {
    if visits != [] {
      var n := |visits| - 1;
      VisitReadings(records, visits[..n], env, prepare);
    }
  }

  /** Every post call of a run was for an entry that the ledger as it stood at
      the start did not hold and whose age, at the clock reading of its visit,
      was inside the window. */
  lemma {:induction false} VisitPostsPublishable(records: seq<Record>, visits: seq<Entry>, env: Env, prepare: Entry -> CallResult<Prepared>)
    ensures var r := Visit(Start(records), visits, env, prepare);
            forall k :: 0 <= k < |r.attempts| ==> Publishable(records, r.attempts[k].entry, env, r.attempts[k].now)
    decreases |visits|
  {
    if visits != [] {
      var n := |visits| - 1;
      var m := Visit(Start(records), visits[..n], env, prepare);
      VisitPostsPublishable(records, visits[..n], env, prepare);
      VisitGrows(records, visits[..n], env, prepare);
      var r := Step(m, visits[n], env, prepare(visits[n]));
      assert r == Visit(Start(records), visits, env, prepare);
      if |r.attempts| == |m.attempts| + 1 {
        var e := visits[n];
        var now := env.clock(m.readings);
        ProcessedConcat(records, RecordsOf(m.attempts, env.cfg), KeyOf(e, env.cfg));
        assert Publishable(records, e, env, now);
        forall k | 0 <= k < |r.attempts| ensures Publishable(records, r.attempts[k].entry, env, r.attempts[k].now) {
          if k < |m.attempts| {
            assert r.attempts[k] == m.attempts[k];
          }
        }
      }
    }
  }

  lemma VisitPostPublishable(records: seq<Record>, visits: seq<Entry>, env: Env, prepare: Entry -> CallResult<Prepared>, k: int)
    requires 0 <= k < |Visit(Start(records), visits, env, prepare).attempts|
    ensures var a := Visit(Start(records), visits, env, prepare).attempts[k];
            Publishable(records, a.entry, env, a.now)
  {
    VisitPostsPublishable(records, visits, env, prepare);
  }

  /** A post call sent what `prepare` made of its entry, and recorded the
      answer the posting API gave for it. */
  ghost predicate SentPrepared(a: Attempt, env: Env, prepare: Entry -> CallResult<Prepared>) {
    && prepare(a.entry) == Ok((a.text, a.media))
    && a.answer == env.oracles.post(a.text, a.media)
  }

  /** Every post call of a run sends the text and media prepared for its entry. */
  lemma {:induction false} VisitSendsPrepared(records: seq<Record>, visits: seq<Entry>, env: Env, prepare: Entry -> CallResult<Prepared>)
    ensures forall k :: 0 <= k < |Visit(Start(records), visits, env, prepare).attempts| ==> SentPrepared(Visit(Start(records), visits, env, prepare).attempts[k], env, prepare)
    decreases |visits|
  {
    if visits != [] {
      var n := |visits| - 1;
      var m := Visit(Start(records), visits[..n], env, prepare);
      VisitSendsPrepared(records, visits[..n], env, prepare);
      var r := Step(m, visits[n], env, prepare(visits[n]));
      assert r == Visit(Start(records), visits, env, prepare);
      if |r.attempts| == |m.attempts| + 1 {
        var e := visits[n];
        var (text, media) := prepare(e).value;
        var a := Attempt(e, env.clock(m.readings), text, media, env.oracles.post(text, media));
        assert r.attempts == m.attempts + [a];
        assert SentPrepared(a, env, prepare);
        forall k | 0 <= k < |r.attempts| ensures SentPrepared(r.attempts[k], env, prepare) {
          if k < |m.attempts| {
            assert r.attempts[k] == m.attempts[k];
          } else {
            assert r.attempts[k] == a;
          }
        }
      } else {
        assert r.attempts == m.attempts;
      }
    }
  }

  lemma VisitSentPrepared(records: seq<Record>, visits: seq<Entry>, env: Env, prepare: Entry -> CallResult<Prepared>, k: int)
    requires 0 <= k < |Visit(Start(records), visits, env, prepare).attempts|
    ensures SentPrepared(Visit(Start(records), visits, env, prepare).attempts[k], env, prepare)
  {
    VisitSendsPrepared(records, visits, env, prepare);
  }

  /** What a visit of `e` owes: `e` was posted, or a call of the run succeeded
      for its id, so that the ledger check found the entry processed. */
  ghost predicate Served(attempts: seq<Attempt>, e: Entry) {
    || (exists k :: 0 <= k < |attempts| && attempts[k].entry == e)
    || (exists k :: 0 <= k < |attempts| && Succeeded(attempts[k]) && attempts[k].entry.id == e.id)
  }

  lemma ServedGrows(xs: seq<Attempt>, ys: seq<Attempt>, e: Entry)
    requires Served(xs, e) && xs <= ys
    ensures Served(ys, e)
  {
    if exists k :: 0 <= k < |xs| && xs[k].entry == e {
      var k :| 0 <= k < |xs| && xs[k].entry == e;
      assert ys[k] == xs[k];
    } else {
      var k :| 0 <= k < |xs| && Succeeded(xs[k]) && xs[k].entry.id == e.id;
      assert ys[k] == xs[k];
    }
  }

  /** The last visit of a run that goes on serves its entry when the entry was
      eligible against the starting ledger and its post could be prepared. */
  lemma ServedByLastVisit(records: seq<Record>, visits: seq<Entry>, env: Env, prepare: Entry -> CallResult<Prepared>)
    requires visits != []
    requires var n := |visits| - 1;
             && Publishable(records, visits[n], env, env.clock(n))
             && prepare(visits[n]).Ok?
    requires !Visit(Start(records), visits, env, prepare).aborted
    ensures Served(Visit(Start(records), visits, env, prepare).attempts, visits[|visits| - 1])
  {
    var n := |visits| - 1;
    var e := visits[n];
    var key := KeyOf(e, env.cfg);
    var m := Visit(Start(records), visits[..n], env, prepare);
    var r := Step(m, e, env, prepare(e));
    assert r == Visit(Start(records), visits, env, prepare);
    assert !m.aborted;
    VisitReadings(records, visits[..n], env, prepare);
    VisitGrows(records, visits[..n], env, prepare);
    ProcessedConcat(records, RecordsOf(m.attempts, env.cfg), key);
    if Processed(m.records, key) {
      RecordsOfProcessed(m.attempts, env.cfg, key);
      var i :| 0 <= i < |m.attempts| && Succeeded(m.attempts[i]) && KeyOf(m.attempts[i].entry, env.cfg) == key;
      assert Served(m.attempts, e);
      ServedGrows(m.attempts, r.attempts, e);
    } else {
      assert Publishable(m.records, e, env, env.clock(m.readings));
      assert r.attempts[|m.attempts|].entry == e;
    }
  }

  /** The converse of `VisitPostsPublishable`: a run that was not ended by an
      exception served every visit whose entry was eligible against the starting
      ledger at that visit's clock reading and whose post could be prepared. */
  lemma {:induction false} VisitPostsEveryEligible(records: seq<Record>, visits: seq<Entry>, env: Env, prepare: Entry -> CallResult<Prepared>)
    ensures var r := Visit(Start(records), visits, env, prepare);
            !r.aborted ==>
              forall j :: 0 <= j < |visits| && Publishable(records, visits[j], env, env.clock(j)) && prepare(visits[j]).Ok? ==>
                Served(r.attempts, visits[j])
    decreases |visits|
  {
    if visits != [] {
      var n := |visits| - 1;
      var m := Visit(Start(records), visits[..n], env, prepare);
      var r := Step(m, visits[n], env, prepare(visits[n]));
      assert r == Visit(Start(records), visits, env, prepare);
      if !r.aborted {
        VisitPostsEveryEligible(records, visits[..n], env, prepare);
        forall j | 0 <= j < |visits| && Publishable(records, visits[j], env, env.clock(j)) && prepare(visits[j]).Ok?
          ensures Served(r.attempts, visits[j])
        {
          if j < n {
            assert visits[..n][j] == visits[j];
            ServedGrows(m.attempts, r.attempts, visits[j]);
          } else {
            ServedByLastVisit(records, visits, env, prepare);
          }
        }
      }
    }
  }

  lemma VisitServes(records: seq<Record>, visits: seq<Entry>, env: Env, prepare: Entry -> CallResult<Prepared>, j: int)
    requires !Visit(Start(records), visits, env, prepare).aborted
    requires 0 <= j < |visits| && Publishable(records, visits[j], env, env.clock(j)) && prepare(visits[j]).Ok?
    ensures Served(Visit(Start(records), visits, env, prepare).attempts, visits[j])
  {
    VisitPostsEveryEligible(records, visits, env, prepare);
  }

  /** Within one run, an entry that was posted with success is never posted again. */
  lemma {:induction false} VisitNoRepost(records: seq<Record>, visits: seq<Entry>, env: Env, prepare: Entry -> CallResult<Prepared>)
    ensures var r := Visit(Start(records), visits, env, prepare);
            forall i, j :: 0 <= i < j < |r.attempts| && Succeeded(r.attempts[i]) ==>
                           r.attempts[i].entry.id != r.attempts[j].entry.id
    decreases |visits|
  {
    if visits != [] {
      var n := |visits| - 1;
      var m := Visit(Start(records), visits[..n], env, prepare);
      VisitNoRepost(records, visits[..n], env, prepare);
      VisitGrows(records, visits[..n], env, prepare);
      var r := Step(m, visits[n], env, prepare(visits[n]));
      assert r == Visit(Start(records), visits, env, prepare);
      if |r.attempts| == |m.attempts| + 1 {
        var e := visits[n];
        forall i | 0 <= i < |m.attempts| && Succeeded(m.attempts[i])
          ensures m.attempts[i].entry.id != e.id
        {
          var k := KeyOf(m.attempts[i].entry, env.cfg);
          RecordsOfProcessed(m.attempts, env.cfg, k);
          ProcessedConcat(records, RecordsOf(m.attempts, env.cfg), k);
          assert Processed(m.records, k);
        }
        forall i, j | 0 <= i < j < |r.attempts| && Succeeded(r.attempts[i])
          ensures r.attempts[i].entry.id != r.attempts[j].entry.id
        {
          assert r.attempts[i] == m.attempts[i];
          if j < |m.attempts| {
            assert r.attempts[j] == m.attempts[j];
          }
        }
      }
    }
  }

  lemma VisitNoRepostAt(records: seq<Record>, visits: seq<Entry>, env: Env, prepare: Entry -> CallResult<Prepared>, i: int, j: int)
    requires 0 <= i < j < |Visit(Start(records), visits, env, prepare).attempts|
    requires Succeeded(Visit(Start(records), visits, env, prepare).attempts[i])
    ensures Visit(Start(records), visits, env, prepare).attempts[i].entry.id !=
            Visit(Start(records), visits, env, prepare).attempts[j].entry.id
  {
    VisitNoRepost(records, visits, env, prepare);
  }

  /** A run keeps the ledger free of two rows with the same key. */
  lemma {:induction false} VisitKeepsKeysUnique(records: seq<Record>, visits: seq<Entry>, env: Env, prepare: Entry -> CallResult<Prepared>)
    requires UniqueKeys(records)
    ensures UniqueKeys(Visit(Start(records), visits, env, prepare).records)
    decreases |visits|
  {
    if visits != [] {
      var n := |visits| - 1;
      var m := Visit(Start(records), visits[..n], env, prepare);
      VisitKeepsKeysUnique(records, visits[..n], env, prepare);
      var r := Step(m, visits[n], env, prepare(visits[n]));
      assert r == Visit(Start(records), visits, env, prepare);
      if |r.attempts| == |m.attempts| + 1 {
        var a := r.attempts[|m.attempts|];
        if Succeeded(a) {
          UniqueAfterAppend(m.records, RecordFor(a, env.cfg)[0]);
        }
      }
    }
  }

  /** `idx` places each post call at the visit it came from, in increasing
      order, and each call's clock reading is that visit's. */
  ghost predicate InVisitOrder(idx: seq<int>, attempts: seq<Attempt>, visits: seq<Entry>, clock: nat -> int) {
    && |idx| == |attempts|
    && (forall k :: 0 <= k < |idx| ==>
          && 0 <= idx[k] < |visits|
          && visits[idx[k]] == attempts[k].entry
          && attempts[k].now == clock(idx[k]))
    && (forall k :: 0 < k < |idx| ==> idx[k - 1] < idx[k])
  }

  lemma InOrderExtend(idx: seq<int>, attempts: seq<Attempt>, visits: seq<Entry>, clock: nat -> int, a: Attempt, e: Entry)
    requires InVisitOrder(idx, attempts, visits, clock)
    requires a.entry == e && a.now == clock(|visits|)
    ensures InVisitOrder(idx + [|visits|], attempts + [a], visits + [e], clock)
  {
  }

  lemma InOrderWiden(idx: seq<int>, attempts: seq<Attempt>, visits: seq<Entry>, clock: nat -> int, e: Entry)
    requires InVisitOrder(idx, attempts, visits, clock)
    ensures InVisitOrder(idx, attempts, visits + [e], clock)
  {
  }

  /** The post calls of a run follow the order of the visits. */
  lemma {:induction false} VisitInOrder(records: seq<Record>, visits: seq<Entry>, env: Env, prepare: Entry -> CallResult<Prepared>)
    ensures exists idx :: InVisitOrder(idx, Visit(Start(records), visits, env, prepare).attempts, visits, env.clock)
    decreases |visits|
  {
    if visits == [] {
      assert Visit(Start(records), visits, env, prepare) == Start(records);
      assert InVisitOrder([], Start(records).attempts, visits, env.clock);
    } else {
      var n := |visits| - 1;
      var m := Visit(Start(records), visits[..n], env, prepare);
      VisitInOrder(records, visits[..n], env, prepare);
      var idx :| InVisitOrder(idx, m.attempts, visits[..n], env.clock);
      var r := Step(m, visits[n], env, prepare(visits[n]));
      assert r == Visit(Start(records), visits, env, prepare);
      assert visits[..n] + [visits[n]] == visits;
      if |r.attempts| == |m.attempts| + 1 {
        VisitReadings(records, visits[..n], env, prepare);
        InOrderExtend(idx, m.attempts, visits[..n], env.clock, r.attempts[|m.attempts|], visits[n]);
      } else {
        InOrderWiden(idx, m.attempts, visits[..n], env.clock, visits[n]);
      }
    }
  }

  /** A run appends to the ledger exactly one row per post call that returned an
      id, and nothing else: afterwards a key is processed exactly when it was
      before or some call of the run succeeded for it, so an entry whose post
      failed stays eligible for the next run. */
  lemma RunAppendsSuccesses(records: seq<Record>, env: Env, prepare: Entry -> CallResult<Prepared>)
    ensures var r := RunWith(records, env, prepare);
            && records <= r.records
            && r.records == records + RecordsOf(r.attempts, env.cfg)
            && forall k :: Processed(r.records, k) <==>
                             || Processed(records, k)
                             || exists i :: 0 <= i < |r.attempts| && Succeeded(r.attempts[i]) && KeyOf(r.attempts[i].entry, env.cfg) == k
  {
    var r := RunWith(records, env, prepare);
    VisitGrows(records, Reversed(Feed(env)), env, prepare);
    forall k ensures Processed(r.records, k) <==>
                     || Processed(records, k)
                     || exists i :: 0 <= i < |r.attempts| && Succeeded(r.attempts[i]) && KeyOf(r.attempts[i].entry, env.cfg) == k
    {
      ProcessedConcat(records, RecordsOf(r.attempts, env.cfg), k);
      RecordsOfProcessed(r.attempts, env.cfg, k);
    }
  }

  /** An entry is posted only if the ledger holds no row for its key and its
      age, at the clock reading of its visit, lies strictly between `delay` and
      `days` days. */
  lemma RunPostsOnlyEligible(records: seq<Record>, env: Env, prepare: Entry -> CallResult<Prepared>)
    ensures var r := RunWith(records, env, prepare);
            forall k :: 0 <= k < |r.attempts| ==>
              var a := r.attempts[k];
              && !Processed(records, KeyOf(a.entry, env.cfg))
              && AgeMicros(a.now, a.entry.published) < env.cfg.days * MicrosPerDay
              && AgeMicros(a.now, a.entry.published) > env.cfg.delay * MicrosPerDay
  {
    var r := RunWith(records, env, prepare);
    forall k | 0 <= k < |r.attempts|
      ensures var a := r.attempts[k];
              && !Processed(records, KeyOf(a.entry, env.cfg))
              && AgeMicros(a.now, a.entry.published) < env.cfg.days * MicrosPerDay
              && AgeMicros(a.now, a.entry.published) > env.cfg.delay * MicrosPerDay
    {
      VisitPostPublishable(records, Reversed(Feed(env)), env, prepare, k);
    }
  }

  /** Within a run no entry id is posted with success twice, even when the feed
      lists it twice. */
  lemma RunNeverRepostsWithinRun(records: seq<Record>, env: Env, prepare: Entry -> CallResult<Prepared>)
    ensures var r := RunWith(records, env, prepare);
            forall i, j :: 0 <= i < j < |r.attempts| && Succeeded(r.attempts[i]) ==>
                           r.attempts[i].entry.id != r.attempts[j].entry.id
  {
    var r := RunWith(records, env, prepare);
    forall i, j | 0 <= i < j < |r.attempts| && Succeeded(r.attempts[i])
      ensures r.attempts[i].entry.id != r.attempts[j].entry.id
    {
      VisitNoRepostAt(records, Reversed(Feed(env)), env, prepare, i, j);
    }
  }

  /** A ledger without duplicate keys has none after a run. */
  lemma RunKeepsKeysUnique(records: seq<Record>, env: Env, prepare: Entry -> CallResult<Prepared>)
    requires UniqueKeys(records)
    ensures UniqueKeys(RunWith(records, env, prepare).records)
  {
    VisitKeepsKeysUnique(records, Reversed(Feed(env)), env, prepare);
  }

  /** Idempotence: for the same source, account and instance, a second run on
      the ledger the first one left never posts an entry that the first run
      posted with success, whatever the feed, the clock and the services do in
      between; every such entry is recorded for the second run to find. */
  lemma SecondRunRepostsNothing(records: seq<Record>, env1: Env, prepare1: Entry -> CallResult<Prepared>,
                                env2: Env, prepare2: Entry -> CallResult<Prepared>)
    requires env1.cfg.source == env2.cfg.source
    requires env1.cfg.username == env2.cfg.username
    requires env1.cfg.instance == env2.cfg.instance
    ensures var r1 := RunWith(records, env1, prepare1);
            var r2 := RunWith(r1.records, env2, prepare2);
            && (forall i :: 0 <= i < |r1.attempts| && Succeeded(r1.attempts[i]) ==>
                              Processed(r1.records, KeyOf(r1.attempts[i].entry, env1.cfg)))
            && (forall i, j :: 0 <= i < |r1.attempts| && 0 <= j < |r2.attempts| && Succeeded(r1.attempts[i]) ==>
                                 r1.attempts[i].entry.id != r2.attempts[j].entry.id)
  {
    var r1 := RunWith(records, env1, prepare1);
    var r2 := RunWith(r1.records, env2, prepare2);
    RunAppendsSuccesses(records, env1, prepare1);
    RunPostsOnlyEligible(r1.records, env2, prepare2);
    forall i | 0 <= i < |r1.attempts| && Succeeded(r1.attempts[i])
      ensures Processed(r1.records, KeyOf(r1.attempts[i].entry, env1.cfg))
    {
      var k := KeyOf(r1.attempts[i].entry, env1.cfg);
      assert Processed(r1.records, k);
    }
    forall i, j | 0 <= i < |r1.attempts| && 0 <= j < |r2.attempts| && Succeeded(r1.attempts[i])
      ensures r1.attempts[i].entry.id != r2.attempts[j].entry.id
    {
      assert Processed(r1.records, KeyOf(r1.attempts[i].entry, env1.cfg));
      assert !Processed(r1.records, KeyOf(r2.attempts[j].entry, env2.cfg));
    }
  }

  /** Every post call of a run sends the text and the media that `Prepare`
      makes of its entry, and records the posting API's answer to exactly that. */
  lemma RunSendsPrepared(records: seq<Record>, env: Env)
    ensures var r := RunSpec(records, env);
            forall k :: 0 <= k < |r.attempts| ==>
              var a := r.attempts[k];
              && Prepare(a.entry, env) == Ok((a.text, a.media))
              && a.answer == env.oracles.post(a.text, a.media)
  {
    var r := RunSpec(records, env);
    forall k | 0 <= k < |r.attempts|
      ensures var a := r.attempts[k];
              && Prepare(a.entry, env) == Ok((a.text, a.media))
              && a.answer == env.oracles.post(a.text, a.media)
    {
      VisitSentPrepared(records, Reversed(Feed(env)), env, Preparation(env), k);
    }
  }

  /** A run that no exception ended posts every feed entry that was eligible
      against the starting ledger at the clock reading of its visit and whose
      post could be prepared, unless a call of the run had already succeeded for
      its id. */
  lemma RunPostsEveryEligible(records: seq<Record>, env: Env, prepare: Entry -> CallResult<Prepared>)
    ensures var r := RunWith(records, env, prepare);
            var f := Feed(env);
            !r.aborted ==>
              forall p :: 0 <= p < |f| && Publishable(records, f[p], env, env.clock(|f| - 1 - p)) && prepare(f[p]).Ok? ==>
                || (exists k :: 0 <= k < |r.attempts| && r.attempts[k].entry == f[p])
                || (exists k :: 0 <= k < |r.attempts| && Succeeded(r.attempts[k]) && r.attempts[k].entry.id == f[p].id)
  {
    var r := RunWith(records, env, prepare);
    var f := Feed(env);
    if !r.aborted {
      forall p | 0 <= p < |f| && Publishable(records, f[p], env, env.clock(|f| - 1 - p)) && prepare(f[p]).Ok?
        ensures Served(r.attempts, f[p])
      {
        VisitServes(records, Reversed(f), env, prepare, |f| - 1 - p);
      }
    }
  }

  /** The positions `idx` counted from the end of a sequence of length `n`. */
  function FromEnd(idx: seq<int>, n: int): (pos: seq<int>)
    ensures |pos| == |idx|
    ensures forall k :: 0 <= k < |idx| ==> pos[k] == n - 1 - idx[k]
  {
    seq(|idx|, k requires 0 <= k < |idx| => n - 1 - idx[k])
  }

  /** `pos` places each post call at the feed position of its entry, in strictly
      decreasing order, and each call's clock reading is the one taken at that
      position's visit, `|entries| - 1 - pos[k]`. */
  ghost predicate InFeedOrder(pos: seq<int>, attempts: seq<Attempt>, entries: seq<Entry>, clock: nat -> int) {
    && |pos| == |attempts|
    && (forall k :: 0 <= k < |pos| ==>
          && 0 <= pos[k] < |entries|
          && entries[pos[k]] == attempts[k].entry
          && attempts[k].now == clock(|entries| - 1 - pos[k]))
    && (forall k :: 0 < k < |pos| ==> pos[k - 1] > pos[k])
  }

  /** Visit indices counted from the end are feed positions: a visit order over
      the reversed feed is a strictly decreasing order over the feed. */
  lemma FeedPositions(entries: seq<Entry>, idx: seq<int>, attempts: seq<Attempt>, clock: nat -> int)
    requires InVisitOrder(idx, attempts, Reversed(entries), clock)
    ensures InFeedOrder(FromEnd(idx, |entries|), attempts, entries, clock)
  {
    var pos := FromEnd(idx, |entries|);
    forall k | 0 <= k < |pos|
      ensures && 0 <= pos[k] < |entries|
              && entries[pos[k]] == attempts[k].entry
              && attempts[k].now == clock(|entries| - 1 - pos[k])
    {
      assert Reversed(entries)[idx[k]] == attempts[k].entry;
    }
  }

  /** Entries are visited in reverse feed order: post calls go to entries at
      strictly decreasing positions of the parsed feed, and the entry at position
      `p` is measured against the clock's reading number `|feed| - 1 - p`. */
  lemma RunVisitsNewestLast(records: seq<Record>, env: Env, prepare: Entry -> CallResult<Prepared>)
    ensures exists pos :: InFeedOrder(pos, RunWith(records, env, prepare).attempts, Feed(env), env.clock)
  {
    var entries := Feed(env);
    var attempts := RunWith(records, env, prepare).attempts;
    VisitInOrder(records, Reversed(entries), env, prepare);
    var idx :| InVisitOrder(idx, attempts, Reversed(entries), env.clock);
    FeedPositions(entries, idx, attempts, env.clock);
  }

  lemma ReversedFrom<T>(s: seq<T>, i: int)
    requires 0 <= i < |s|
    ensures Reversed(s[i..]) == Reversed(s[i + 1..]) + [s[i]]
  {
    assert s[i..] == [s[i]] + s[i + 1..];
    ReversedConcat([s[i]], s[i + 1..]);
  }

  lemma VisitLast(st: RunState, visits: seq<Entry>, e: Entry, env: Env, prepare: Entry -> CallResult<Prepared>)
    ensures Visit(st, visits + [e], env, prepare) == Step(Visit(st, visits, env, prepare), e, env, prepare(e))
  {
    assert (visits + [e])[..|visits|] == visits;
  }

  /** The body of the loop from the retweet prefix to the tag block: the
      pictures are uploaded, then the title is attributed, de-shortened, cleaned,
      given its footer (generic feeds only) and its tags. */
  method MakePost(e: Entry, twitter: Option<string>, env: Env) returns (r: CallResult<Prepared>)
    requires twitter == ResolveSource(env.cfg.source).1
    ensures r == Prepare(e, env)
  {
    var title := e.title;
    if IsRetweet(e.author, twitter) {
      title := RetweetLine(e.author) + title;
    }
    var media := GetPictures(e.summary, env.oracles.media);
    if media.Raised? {
      return Raised;
    }
    var linked := ReplaceShortLinks(title, env.oracles.probe);
    if linked.Raised? {
      return Raised;
    }
    title := RemoveTitleTrash(linked.value);
    if twitter.None? {
      title := title + SourceFooter(e);
    }
    title := title + env.cfg.tags;
    return Ok((title, media.value));
  }

  lemma ReversedSplit<T>(s: seq<T>, i: int)
    requires 0 <= i <= |s|
    ensures Reversed(s) == Reversed(s[i..]) + Reversed(s[..i])
  {
    assert s[..i] + s[i..] == s;
    ReversedConcat(s[..i], s[i..]);
  }

  lemma VisitAbortedConcat(st: RunState, xs: seq<Entry>, ys: seq<Entry>, env: Env, prepare: Entry -> CallResult<Prepared>)
    requires Visit(st, xs, env, prepare).aborted
    ensures Visit(st, xs + ys, env, prepare) == Visit(st, xs, env, prepare)
  {
    VisitConcat(st, xs, ys, env, prepare);
    VisitAborted(Visit(st, xs, env, prepare), ys, env, prepare);
  }

  /** The loop's next turn visits `entries[i]`. */
  lemma VisitFeedFrom(start: RunState, entries: seq<Entry>, i: int, env: Env)
    requires 0 <= i < |entries|
    ensures Visit(start, Reversed(entries[i..]), env, Preparation(env)) ==
            Step(Visit(start, Reversed(entries[i + 1..]), env, Preparation(env)), entries[i], env, Prepare(entries[i], env))
  {
    ReversedFrom(entries, i);
    VisitLast(start, Reversed(entries[i + 1..]), entries[i], env, Preparation(env));
  }

  /** When the loop stops, by exhausting the feed or by an exception, the state
      is that of the whole run. */
  lemma VisitFeedStops(start: RunState, entries: seq<Entry>, i: int, env: Env)
    requires 0 <= i <= |entries|
    requires i == 0 || Visit(start, Reversed(entries[i..]), env, Preparation(env)).aborted
    ensures Visit(start, Reversed(entries[i..]), env, Preparation(env)) == Visit(start, Reversed(entries), env, Preparation(env))
  {
    if i == 0 {
      assert entries[0..] == entries;
    } else {
      ReversedSplit(entries, i);
      VisitAbortedConcat(start, Reversed(entries[i..]), Reversed(entries[..i]), env, Preparation(env));
    }
  }

  /** One pass of the loop body over `e` in a live run: the ledger lookup, the
      clock reading, the age test, then the post and the row. */
  method Turn(ledger: Ledger, e: Entry, twitter: Option<string>, env: Env, attempts: seq<Attempt>, readings: nat)
    returns (attempts': seq<Attempt>, aborted': bool, readings': nat)
    requires twitter == ResolveSource(env.cfg.source).1
    modifies ledger
    ensures RunState(ledger.records, attempts', aborted', readings') ==
            Step(RunState(old(ledger.records), attempts, false, readings), e, env, Prepare(e, env))
  {
    ghost var st := RunState(ledger.records, attempts, false, readings);
    var cfg := env.cfg;
    var processed := ledger.IsProcessed(KeyOf(e, cfg));
    var now := env.clock(readings);
    attempts', aborted', readings' := attempts, false, readings + 1;
    var verdict := Eligibility(processed, AgeMicros(now, e.published), cfg.days, cfg.delay);
    assert verdict == VerdictOf(st.records, e, env, now);
    if verdict == Overflow {
      aborted' := true;
    } else if verdict == Publish {
      var made := MakePost(e, twitter, env);
      if made.Raised? {
        aborted' := true;
      } else {
        var (text, media) := made.value;
        var answer := env.oracles.post(text, media);
        var a := Attempt(e, now, text, media, answer);
        attempts' := attempts + [a];
        assert Step(st, e, env, made) == RunState(st.records + RecordFor(a, cfg), attempts', answer.Raised?, readings');
        if answer.Raised? {
          aborted' := true;
        } else if answer.value.Some? {
          ledger.Insert(Record(e.id, answer.value.value, cfg.source, cfg.username, cfg.instance));
        }
      }
    }
  }

  /** `main` once logged in and with the store open: the feed is read, and its
      entries are visited newest last until the end or until an exception. The
      ledger is updated in place; the post calls made and whether an exception
      ended the loop are returned. */
  method Run(ledger: Ledger, cfg: Config, clock: nat -> int, o: Oracles) returns (attempts: seq<Attempt>, aborted: bool)
    modifies ledger
    ensures var r := RunSpec(old(ledger.records), Env(cfg, clock, o));
            ledger.records == r.records && attempts == r.attempts && aborted == r.aborted
  {
    var env := Env(cfg, clock, o);
    ghost var start := Start(ledger.records);
    var resolved := ResolveSource(cfg.source);
    var twitter := resolved.1;
    var entries := o.parse(resolved.0);
    attempts, aborted := [], false;
    var readings: nat := 0;
    var i := |entries|;
    while i > 0 && !aborted
      invariant 0 <= i <= |entries|
      invariant RunState(ledger.records, attempts, aborted, readings) == Visit(start, Reversed(entries[i..]), env, Preparation(env))
    {
      i := i - 1;
      var e := entries[i];
      attempts, aborted, readings := Turn(ledger, e, twitter, env, attempts, readings);
      VisitFeedFrom(start, entries, i, env);
    }
    VisitFeedStops(start, entries, i, env);
  }
}
