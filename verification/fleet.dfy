/** The handler's two passes over the target buckets and the gate between them
    (handlers/index.cjs, lines 36-300), with every AWS and HTTP call replaced
    by its given outcome. */
module Fleet {
  import opened Wrappers
  import opened Seqs
  import opened JsonValues
  import opened ManagedStatement
  import opened Differ
  import opened Updater
  import opened Ranges

  /** The error message GetBucketPolicy raises for a bucket with no policy. */
  const NoPolicyMessage: string := "The bucket policy does not exist"

  /** The TypeError raised when a GetBucketPolicy reply carries no Policy field
      and its length is read for the log line. */
  const MissingPolicyMessage: string := "Cannot read properties of undefined (reading 'length')"

  /** What GetBucketLocation answers. */
  datatype LocationResponse = Located(region: string) | LocationError(message: string)

  /** What GetBucketPolicy answers: a reply with a Policy text (already
      classified), a reply without one, or an error. */
  datatype PolicyResponse =
    | PolicyText(policy: CurrentPolicy)
    | PolicyFieldMissing
    | PolicyError(message: string)

  /** What PutBucketPolicy answers. */
  datatype PutResponse = PutAccepted | PutError(message: string)

  /** Everything the outside world answers about one listed bucket. */
  datatype Responses = Responses(location: LocationResponse, policy: PolicyResponse, put: PutResponse)

  /** One entry of the bucket list together with the answers it receives. */
  datatype Target = Target(name: string, responses: Responses)

  /** The current policy once fetched, or the recorded get failure. */
  datatype PolicyFetch = Fetched(policy: CurrentPolicy) | FetchFailed(message: string)

  /** The state of one bucket after the first pass: a get failure, a parse
      failure, an uncaught TypeError, or the region, the parsed policy and the
      differs flag. */
  datatype Probe =
    | GetFailed(message: string)
    | ParseFailed
    | Crashed
    | Probed(region: string, current: Option<Doc>, differs: bool)

  /** A bucket as the handler's `targetBuckets` entry holds it. */
  datatype Tracked = Tracked(target: Target, probe: Probe)

  /** One PutBucketPolicy request. */
  datatype Put = Put(bucket: string, region: string, policy: Doc)

  /** The second pass's effect: the buckets it sent a request for, in order,
      the success count and the names of the buckets whose request failed. */
  datatype WriteSummary = WriteSummary(written: seq<Tracked>, successes: nat, failed: seq<string>)

  /** How the invocation ends: `return true`, a bare `return`, or a throw. */
  datatype Signal = ReturnedTrue | ReturnedNothing | Threw

  /** The whole effect of one invocation: the requests sent, the count logged,
      the two failure tables and the returned signal. */
  datatype RunResult = RunResult(
    puts: seq<Put>,
    successes: nat,
    getParseFailures: seq<string>,
    putFailures: seq<string>,
    signal: Signal)

  /** Lines 120-136: the sentinel error means no policy, a reply without a
      Policy field fails on the length read, any other error is a get failure. */
  function FetchPolicy(r: PolicyResponse): (f: PolicyFetch)
    ensures f == Fetched(Absent) <==>
            r == PolicyText(Absent) || r == PolicyError(NoPolicyMessage)
    ensures f.FetchFailed? <==>
            r.PolicyFieldMissing? || (r.PolicyError? && r.message != NoPolicyMessage)
    ensures r.PolicyText? ==> f == Fetched(r.policy)
  {
    match r
    case PolicyText(p) => Fetched(p)
    case PolicyFieldMissing => FetchFailed(MissingPolicyMessage)
    case PolicyError(m) => if m == NoPolicyMessage then Fetched(Absent) else FetchFailed(m)
  }

  /** A bucket that reached the second pass holds a policy the handler could
      inspect, so it can be rewritten. */
  predicate Writable(t: Tracked) {
    t.probe.Probed? && t.probe.current.Some? ==> Inspectable(t.probe.current.value)
  }

  /** The first pass for one bucket (lines 91-197). */
  function ProbeTarget(t: Target, ranges: seq<string>): (p: Probe)
    ensures Writable(Tracked(t, p))
    ensures p.GetFailed? <==>
            t.responses.location.LocationError? || FetchPolicy(t.responses.policy).FetchFailed?
    ensures p.ParseFailed? <==>
            t.responses.location.Located? && FetchPolicy(t.responses.policy) == Fetched(Unparsable)
    ensures p.Crashed? <==>
            && t.responses.location.Located?
            && FetchPolicy(t.responses.policy).Fetched?
            && FetchPolicy(t.responses.policy).policy.Parsed?
            && !Inspectable(FetchPolicy(t.responses.policy).policy.doc)
    ensures p.Probed? ==> p.region == t.responses.location.region
    ensures p.Probed? ==>
            p.current == (if FetchPolicy(t.responses.policy).policy.Parsed?
                          then Some(FetchPolicy(t.responses.policy).policy.doc) else None)
    ensures p.Probed? ==>
            Diff(FetchPolicy(t.responses.policy).policy, Canonical(t.name, ranges)) == Differs(p.differs)
  {
    match t.responses.location
    case LocationError(m) => GetFailed(m)
    case Located(region) =>
      match FetchPolicy(t.responses.policy)
      case FetchFailed(m) => GetFailed(m)
      case Fetched(current) =>
        match Diff(current, Canonical(t.name, ranges))
        case ParseFailure => ParseFailed
        case Uncaught => Crashed
        case Differs(d) => Probed(region, if current.Parsed? then Some(current.doc) else None, d)
  }

  /** The first pass over the whole list. */
  function Pass1(targets: seq<Target>, ranges: seq<string>): (ts: seq<Tracked>)
    ensures |ts| == |targets|
    ensures forall i :: 0 <= i < |ts| ==> ts[i] == Tracked(targets[i], ProbeTarget(targets[i], ranges))
  {
    seq(|targets|, i requires 0 <= i < |targets| => Tracked(targets[i], ProbeTarget(targets[i], ranges)))
  }

  /** A get or parse exception is recorded for this bucket. */
  predicate Blocked(t: Tracked) {
    t.probe.GetFailed? || t.probe.ParseFailed?
  }

  predicate IsCrashed(t: Tracked) {
    t.probe.Crashed?
  }

  /** The bucket is flagged as differing, so the second pass rewrites it. */
  predicate NeedsWrite(t: Tracked) {
    t.probe.Probed? && t.probe.differs
  }

  predicate WriteAccepted(t: Tracked) {
    NeedsWrite(t) && t.target.responses.put.PutAccepted?
  }

  predicate WriteRejected(t: Tracked) {
    NeedsWrite(t) && t.target.responses.put.PutError?
  }

  /** The request the second pass sends for a differing bucket (lines 239-263). */
  function PutFor(t: Tracked, ranges: seq<string>): Put
    requires NeedsWrite(t) && Writable(t)
  {
    Put(t.target.name, t.probe.region, Update(t.probe.current, t.target.name, ranges))
  }

  /** The bucket names of a table of tracked buckets. */
  function Names(ts: seq<Tracked>): (names: seq<string>)
    ensures |names| == |ts|
    ensures forall i :: 0 <= i < |ts| ==> names[i] == ts[i].target.name
  {
    seq(|ts|, i requires 0 <= i < |ts| => ts[i].target.name)
  }

  lemma NamesCons(t: Tracked, ts: seq<Tracked>)
    ensures Names([t] + ts) == [t.target.name] + Names(ts)
  {
  }

  /** The second pass (lines 231-269): it visits the buckets in list order,
      sends a request for each differing one and records each outcome; a failed
      request does not stop the others. */
  function WritePass(ts: seq<Tracked>): (w: WriteSummary)
    ensures w.successes + |w.failed| == |w.written|
    decreases |ts|
  {
    if |ts| == 0 then WriteSummary([], 0, [])
    else
      var rest := WritePass(ts[1..]);
      var t := ts[0];
      if !NeedsWrite(t) then rest
      else
        match t.target.responses.put
        case PutAccepted =>
          WriteSummary([t] + rest.written, rest.successes + 1, rest.failed)
        case PutError(_) =>
          WriteSummary([t] + rest.written, rest.successes, [t.target.name] + rest.failed)
  }

  /** The second pass sends requests for exactly the differing buckets, in list
      order; the count is the number of accepted requests and the failure
      table names, in order, the buckets whose request was rejected. */
  lemma {:induction false} WritePassSummary(ts: seq<Tracked>)
    ensures var w := WritePass(ts);
            && w.written == Filter(ts, NeedsWrite)
            && w.successes == |Filter(ts, WriteAccepted)|
            && w.failed == Names(Filter(ts, WriteRejected))
    decreases |ts|
  {
    if |ts| > 0 {
      var t := ts[0];
      var rest := ts[1..];
      WritePassSummary(rest);
      var w, w' := WritePass(ts), WritePass(rest);
      if !NeedsWrite(t) {
        assert Filter(ts, NeedsWrite) == Filter(rest, NeedsWrite);
        assert Filter(ts, WriteAccepted) == Filter(rest, WriteAccepted);
        assert Filter(ts, WriteRejected) == Filter(rest, WriteRejected);
      } else if WriteAccepted(t) {
        assert w == WriteSummary([t] + w'.written, w'.successes + 1, w'.failed);
        assert Filter(ts, NeedsWrite) == [t] + Filter(rest, NeedsWrite);
        assert Filter(ts, WriteAccepted) == [t] + Filter(rest, WriteAccepted);
        assert Filter(ts, WriteRejected) == Filter(rest, WriteRejected);
      } else {
        assert w == WriteSummary([t] + w'.written, w'.successes, [t.target.name] + w'.failed);
        assert Filter(ts, NeedsWrite) == [t] + Filter(rest, NeedsWrite);
        assert Filter(ts, WriteAccepted) == Filter(rest, WriteAccepted);
        assert Filter(ts, WriteRejected) == [t] + Filter(rest, WriteRejected);
        NamesCons(t, Filter(rest, WriteRejected));
      }
    }
  }

  /** Every bucket of `ts` is flagged as differing and can be rewritten. */
  predicate AllToWrite(ts: seq<Tracked>) {
    forall i :: 0 <= i < |ts| ==> NeedsWrite(ts[i]) && Writable(ts[i])
  }

  /** The requests sent for the given buckets, one per bucket, in order. */
  function PutsFor(ds: seq<Tracked>, ranges: seq<string>): (puts: seq<Put>)
    requires AllToWrite(ds)
    ensures |puts| == |ds|
    ensures forall i :: 0 <= i < |ds| ==> puts[i] == PutFor(ds[i], ranges)
  {
    seq(|ds|, i requires 0 <= i < |ds| && AllToWrite(ds) => PutFor(ds[i], ranges))
  }

  /** Every bucket of `ts` that reached the second pass can be rewritten. */
  predicate AllWritable(ts: seq<Tracked>) {
    forall i :: 0 <= i < |ts| ==> Writable(ts[i])
  }

  /** The differing buckets of a first-pass table can all be rewritten. */
  lemma DifferingAreWritable(ts: seq<Tracked>)
    requires AllWritable(ts)
    ensures AllToWrite(Filter(ts, NeedsWrite))
  {
    var d := Filter(ts, NeedsWrite);
    forall i | 0 <= i < |d|
      ensures Writable(d[i])
    {
      var j :| 0 <= j < |ts| && ts[j] == d[i];
    }
  }

  lemma Pass1Writable(targets: seq<Target>, ranges: seq<string>)
    ensures AllWritable(Pass1(targets, ranges))
  {
  }

  /** Some bucket's first pass threw a TypeError. */
  predicate AnyCrashed(ts: seq<Tracked>) {
    exists i :: 0 <= i < |ts| && IsCrashed(ts[i])
  }

  /** One invocation once the range list and the bucket list are known
      (lines 87-300): the first pass, the gate, and the second pass. */
  function Run(targets: seq<Target>, ranges: seq<string>): (r: RunResult)
    ensures r.signal == Threw <==> AnyCrashed(Pass1(targets, ranges))
    ensures r.signal == Threw ==> r == RunResult([], 0, [], [], Threw)
    ensures r.successes + |r.putFailures| == |r.puts|
    ensures r.getParseFailures != [] ==> r.puts == [] && r.signal == ReturnedNothing
  {
    var ts := Pass1(targets, ranges);
    Pass1Writable(targets, ranges);
    DifferingAreWritable(ts);
    if AnyCrashed(ts) then
      RunResult([], 0, [], [], Threw)
    else
      var blocked := Filter(ts, Blocked);
      if |blocked| > 0 then
        RunResult([], 0, Names(blocked), [], ReturnedNothing)
      else if |Filter(ts, NeedsWrite)| < 1 then
        RunResult([], 0, [], [], ReturnedTrue)
      else
        var w := WritePass(ts);
        WritePassSummary(ts);
        RunResult(PutsFor(w.written, ranges), w.successes, [], w.failed,
                  if |w.failed| > 0 then ReturnedNothing else ReturnedTrue)
  }

  /** The gate (lines 199-222): once any bucket's state is unknown, because its
      region or policy could not be read, its policy could not be parsed, or
      its inspection threw, no request is sent and no success is signalled. */
  lemma GateBlocksWrites(targets: seq<Target>, ranges: seq<string>, i: int)
    requires 0 <= i < |targets| && !ProbeTarget(targets[i], ranges).Probed?
    ensures var r := Run(targets, ranges);
            r.puts == [] && r.successes == 0 && r.signal != ReturnedTrue
  {
    var ts := Pass1(targets, ranges);
    if !AnyCrashed(ts) {
      assert Blocked(ts[i]);
      FilterEmpty(ts, Blocked);
    }
  }

  /** The table of buckets whose state is unknown, listed before bailing out,
      names exactly the buckets with a get or parse failure. */
  lemma GetParseReport(targets: seq<Target>, ranges: seq<string>)
    requires !AnyCrashed(Pass1(targets, ranges))
    requires Filter(Pass1(targets, ranges), Blocked) != []
    ensures Run(targets, ranges)
         == RunResult([], 0, Names(Filter(Pass1(targets, ranges), Blocked)), [], ReturnedNothing)
  {
  }

  /** When every bucket was inspected and none differs, the run sends
      nothing, reports nothing and returns true (lines 224-228). */
  lemma AllInSyncReturnsTrue(targets: seq<Target>, ranges: seq<string>)
    requires forall i :: 0 <= i < |targets| ==>
               ProbeTarget(targets[i], ranges).Probed? && !ProbeTarget(targets[i], ranges).differs
    ensures Run(targets, ranges) == RunResult([], 0, [], [], ReturnedTrue)
  {
    var ts := Pass1(targets, ranges);
    PassesGate(targets, ranges);
    FilterEmpty(ts, NeedsWrite);
  }

  /** The invocation returns true exactly when every bucket was inspected and
      every request that had to be sent was accepted. */
  lemma SucceedsIff(targets: seq<Target>, ranges: seq<string>)
    ensures Run(targets, ranges).signal == ReturnedTrue <==>
            forall i :: 0 <= i < |targets| ==>
              && ProbeTarget(targets[i], ranges).Probed?
              && (ProbeTarget(targets[i], ranges).differs ==> targets[i].responses.put.PutAccepted?)
  {
    if i :| 0 <= i < |targets| && !ProbeTarget(targets[i], ranges).Probed? {
      GateBlocksWrites(targets, ranges, i);
    } else {
      SucceedsWhenInspected(targets, ranges);
    }
  }

  /** The inspected case of `SucceedsIff`: the run returns true exactly when
      no request was rejected. */
  lemma SucceedsWhenInspected(targets: seq<Target>, ranges: seq<string>)
    requires forall i :: 0 <= i < |targets| ==> ProbeTarget(targets[i], ranges).Probed?
    ensures Run(targets, ranges).signal == ReturnedTrue <==>
            forall i :: 0 <= i < |targets| ==>
              ProbeTarget(targets[i], ranges).differs ==> targets[i].responses.put.PutAccepted?
  {
    var ts := Pass1(targets, ranges);
    RunInspected(targets, ranges);
    SuccessCount(targets, ranges);
    FilterEmpty(ts, WriteRejected);
    var r := Run(targets, ranges);
    var rejected := Filter(ts, WriteRejected);
    assert r.signal == ReturnedTrue <==> r.putFailures == [];
    assert r.putFailures == Names(rejected);
    assert |Names(rejected)| == |rejected|;
    assert r.signal == ReturnedTrue <==> rejected == [];
    forall i | 0 <= i < |targets|
      ensures !WriteRejected(ts[i]) <==>
              (ProbeTarget(targets[i], ranges).differs ==> targets[i].responses.put.PutAccepted?)
    {
      assert ts[i] == Tracked(targets[i], ProbeTarget(targets[i], ranges));
    }
  }

  /** When every bucket was inspected, the run is the second pass over the
      differing buckets. */
  lemma RunInspected(targets: seq<Target>, ranges: seq<string>)
    requires forall i :: 0 <= i < |targets| ==> ProbeTarget(targets[i], ranges).Probed?
    ensures AllToWrite(Filter(Pass1(targets, ranges), NeedsWrite))
    ensures var r := Run(targets, ranges);
            && r.puts == PutsFor(Filter(Pass1(targets, ranges), NeedsWrite), ranges)
            && (r.signal == ReturnedTrue <==> r.putFailures == [])
  {
    var ts := Pass1(targets, ranges);
    PassesGate(targets, ranges);
    WritePassSummary(ts);
    var w := WritePass(ts);
    if |Filter(ts, NeedsWrite)| < 1 {
      assert |w.failed| == 0;
    }
  }

  /** When every bucket was inspected, the gate lets the run through. */
  lemma PassesGate(targets: seq<Target>, ranges: seq<string>)
    requires forall i :: 0 <= i < |targets| ==> ProbeTarget(targets[i], ranges).Probed?
    ensures !AnyCrashed(Pass1(targets, ranges))
    ensures Filter(Pass1(targets, ranges), Blocked) == []
    ensures AllToWrite(Filter(Pass1(targets, ranges), NeedsWrite))
  {
    var ts := Pass1(targets, ranges);
    FilterEmpty(ts, Blocked);
    Pass1Writable(targets, ranges);
    DifferingAreWritable(ts);
  }

  /** A request is sent only when every bucket was inspected. */
  lemma PutsNeedInspection(targets: seq<Target>, ranges: seq<string>)
    ensures Run(targets, ranges).puts != [] ==>
            forall i :: 0 <= i < |targets| ==> ProbeTarget(targets[i], ranges).Probed?
  {
    if i :| 0 <= i < |targets| && !ProbeTarget(targets[i], ranges).Probed? {
      GateBlocksWrites(targets, ranges, i);
    }
  }

  /** `put` is the request the second pass sends for bucket `t`: the bucket
      differs, and the request carries its updated policy to its region. */
  predicate SentFor(put: Put, t: Target, ranges: seq<string>) {
    var p := ProbeTarget(t, ranges);
    && p.Probed? && p.differs
    && put == Put(t.name, p.region, Update(p.current, t.name, ranges))
  }

  /** Requests go only to differing buckets: each request sent is the
      updated policy of a bucket the first pass flagged as differing, sent to
      that bucket's region. */
  lemma WritesOnlyDiffering(targets: seq<Target>, ranges: seq<string>)
    ensures var r := Run(targets, ranges);
            forall k :: 0 <= k < |r.puts| ==>
              exists j :: 0 <= j < |targets| && SentFor(r.puts[k], targets[j], ranges)
  {
    var ts := Pass1(targets, ranges);
    var r := Run(targets, ranges);
    PutsNeedInspection(targets, ranges);
    if r.puts != [] {
      RunInspected(targets, ranges);
      var d := Filter(ts, NeedsWrite);
      forall k | 0 <= k < |r.puts|
        ensures exists j :: 0 <= j < |targets| && SentFor(r.puts[k], targets[j], ranges)
      {
        assert r.puts[k] == PutFor(d[k], ranges);
        var j :| 0 <= j < |ts| && ts[j] == d[k];
        assert ts[j] == Tracked(targets[j], ProbeTarget(targets[j], ranges));
        assert SentFor(r.puts[k], targets[j], ranges);
      }
    }
  }

  /** Without unknown state, every differing bucket gets its request: the
      bucket's updated policy, sent to the bucket's region. */
  lemma EveryDifferingWritten(targets: seq<Target>, ranges: seq<string>, j: int)
    requires forall i :: 0 <= i < |targets| ==> ProbeTarget(targets[i], ranges).Probed?
    requires 0 <= j < |targets| && ProbeTarget(targets[j], ranges).differs
    ensures var p := ProbeTarget(targets[j], ranges);
            Put(targets[j].name, p.region, Update(p.current, targets[j].name, ranges)) in Run(targets, ranges).puts
  {
    var ts := Pass1(targets, ranges);
    RunInspected(targets, ranges);
    var d := Filter(ts, NeedsWrite);
    assert NeedsWrite(ts[j]);
    assert ts[j] in d;
    var k :| 0 <= k < |d| && d[k] == ts[j];
    assert Run(targets, ranges).puts[k] == PutFor(d[k], ranges);
  }

  /** Without unknown state, the logged count is the number of accepted
      requests and the put-failure table names the buckets of the others. */
  lemma SuccessCount(targets: seq<Target>, ranges: seq<string>)
    requires forall i :: 0 <= i < |targets| ==> ProbeTarget(targets[i], ranges).Probed?
    ensures var r := Run(targets, ranges);
            && r.successes == |Filter(Pass1(targets, ranges), WriteAccepted)|
            && r.putFailures == Names(Filter(Pass1(targets, ranges), WriteRejected))
            && r.successes + |r.putFailures| == |r.puts|
  {
    var ts := Pass1(targets, ranges);
    PassesGate(targets, ranges);
    WritePassSummary(ts);
    var w := WritePass(ts);
    if |Filter(ts, NeedsWrite)| < 1 {
      assert |w.failed| == 0 && w.successes == 0;
    }
  }

  /** The bucket as the next invocation finds it: an accepted request has
      replaced its policy, every other answer is unchanged. */
  function AfterRun(t: Target, ranges: seq<string>): Target {
    var p := ProbeTarget(t, ranges);
    if p.Probed? && p.differs && t.responses.put.PutAccepted? then
      Target(t.name, t.responses.(policy := PolicyText(Parsed(Update(p.current, t.name, ranges)))))
    else t
  }

  /** A bucket inspected without trouble, and rewritten if it differed, is in
      sync on the next invocation. */
  lemma AfterRunInSync(t: Target, ranges: seq<string>)
    requires ProbeTarget(t, ranges).Probed?
    requires ProbeTarget(t, ranges).differs ==> t.responses.put.PutAccepted?
    ensures ProbeTarget(AfterRun(t, ranges), ranges).Probed?
    ensures !ProbeTarget(AfterRun(t, ranges), ranges).differs
  {
    var p := ProbeTarget(t, ranges);
    if p.differs {
      UpdateThenDiffInSync(p.current, t.name, ranges);
    }
  }

  /** Idempotence of the whole run: after a fully successful invocation, a
      second one with the same ranges finds every bucket in sync, sends
      nothing and returns true. */
  lemma RerunWritesNothing(targets: seq<Target>, ranges: seq<string>)
    requires Run(targets, ranges).signal == ReturnedTrue
    ensures var again := Run(seq(|targets|, i requires 0 <= i < |targets| => AfterRun(targets[i], ranges)), ranges);
            again.puts == [] && again.signal == ReturnedTrue
  {
    SucceedsIff(targets, ranges);
    var next := seq(|targets|, i requires 0 <= i < |targets| => AfterRun(targets[i], ranges));
    forall i | 0 <= i < |next|
      ensures ProbeTarget(next[i], ranges).Probed? && !ProbeTarget(next[i], ranges).differs
    {
      AfterRunInSync(targets[i], ranges);
    }
    SucceedsIff(next, ranges);
    PassesGate(next, ranges);
    FilterEmpty(Pass1(next, ranges), NeedsWrite);
  }

  /** Every request sent writes a policy whose only managed statement is the
      canonical one for that request's bucket and the given ranges. */
  lemma PutsCarryCanonical(targets: seq<Target>, ranges: seq<string>)
    ensures var r := Run(targets, ranges);
            forall k :: 0 <= k < |r.puts| ==>
              && StatementList(r.puts[k].policy).Some?
              && Managed(StatementList(r.puts[k].policy).value) == [Canonical(r.puts[k].bucket, ranges)]
  {
    WritesOnlyDiffering(targets, ranges);
    var r := Run(targets, ranges);
    forall k | 0 <= k < |r.puts|
      ensures && StatementList(r.puts[k].policy).Some?
              && Managed(StatementList(r.puts[k].policy).value) == [Canonical(r.puts[k].bucket, ranges)]
    {
      var j :| 0 <= j < |targets| && SentFor(r.puts[k], targets[j], ranges);
      var p := ProbeTarget(targets[j], ranges);
      UpdateStatements(p.current, targets[j].name, ranges);
    }
  }

  /** The bucket list with the answers each entry receives: the i-th listed
      bucket gets `world(i)`. */
  function Targets(names: seq<string>, world: nat -> Responses): (ts: seq<Target>)
    ensures |ts| == |names|
    ensures forall i :: 0 <= i < |names| ==> ts[i].name == names[i] && ts[i].responses == world(i)
  {
    seq(|names|, i requires 0 <= i < |names| => Target(names[i], world(i)))
  }

  /** The whole handler (lines 36-300): fetch both feeds, read the bucket list,
      then run the two passes. A failed fetch or a missing bucket list throws
      before any bucket is touched. */
  function Handler(v4: FetchResponse, v6: FetchResponse, config: Option<string>,
                   world: nat -> Responses): (r: RunResult)
    ensures v4.TransportError? || v6.TransportError? || config.None? || config.value == "" ==>
            r == RunResult([], 0, [], [], Threw)
  {
    if FeedText(v4).None? || FeedText(v6).None? then RunResult([], 0, [], [], Threw)
    else
      var ranges := NormaliseRanges(FeedText(v4).value, FeedText(v6).value);
      match BucketNames(config)
      case None => RunResult([], 0, [], [], Threw)
      case Some(names) => Run(Targets(names, world), ranges)
  }
}
