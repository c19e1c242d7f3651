/** Concrete runs of the handler on small fleets. */
module Scenarios {
  import opened Wrappers
  import opened Seqs
  import opened Strings
  import opened JsonValues
  import opened Ranges
  import opened ManagedStatement
  import opened Differ
  import opened Updater
  import opened Fleet

  /** One IPv4 and one IPv6 range give a two-entry range list, v4 first. */
  lemma OneRangePerFeed()
    ensures NormaliseRanges("1.2.3.0/24", "::1/128") == ["1.2.3.0/24", "::1/128"]
  {
    RangesOfCleanFeeds(["1.2.3.0/24"], ["::1/128"]);
  }

  /** A lone bucket without a policy gets one request, for its region, and
      the run returns true. */
  lemma NewBucketWrittenOnce(bucket: string, region: string, ranges: seq<string>)
    ensures var t := Target(bucket, Responses(Located(region), PolicyError(NoPolicyMessage), PutAccepted));
            Run([t], ranges) == RunResult([Put(bucket, region, Update(None, bucket, ranges))], 1, [], [], ReturnedTrue)
  {
    var t := Target(bucket, Responses(Located(region), PolicyError(NoPolicyMessage), PutAccepted));
    assert ProbeTarget(t, ranges) == Probed(region, None, true);
    RunInspected([t], ranges);
    var ts := Pass1([t], ranges);
    assert ts == [Tracked(t, Probed(region, None, true))];
    assert ts[1..] == [];
  }

  /** The policy written for a new bucket is the skeleton holding exactly the
      canonical statement, spelled out field by field. */
  lemma NewBucketPolicy(bucket: string)
    requires '$' !in bucket
    ensures var ranges := ["1.2.3.0/24", "::1/128"];
            var expected := JObj(map[
              "Sid" := JStr("S3CloudflarePolicyWriterManagedStatement"),
              "Effect" := JStr("Allow"),
              "Action" := JStr("s3:GetObject"),
              "Principal" := JStr("*"),
              "Resource" := JStr("arn:aws:s3:::" + bucket + "/*"),
              "Condition" := JObj(map["IpAddress" := JObj(map[
                "aws:SourceIp" := JArr([JStr("1.2.3.0/24"), JStr("::1/128")])])])]);
            Update(None, bucket, ranges) == map["Version" := JStr("2012-10-17"), "Statement" := JArr([expected])]
  {
    var ranges := ["1.2.3.0/24", "::1/128"];
    assert SourceIps(ranges) == [JStr("1.2.3.0/24"), JStr("::1/128")];
    AbsentPolicyGetsSkeleton(bucket, ranges);
  }

  /** One bucket whose policy text is unparsable and one bucket in sync: no
      request at all, the in-sync bucket included, no success signal, and only
      the unparsable bucket is reported. */
  lemma UnparsableBlocksInSync(ranges: seq<string>, region: string, put: PutResponse)
    ensures var broken := Target("broken", Responses(Located(region), PolicyText(Unparsable), put));
            var synced := Target("synced", Responses(
              Located(region),
              PolicyText(Parsed(map["Statement" := JArr([Canonical("synced", ranges)])])),
              put));
            Run([broken, synced], ranges) == RunResult([], 0, ["broken"], [], ReturnedNothing)
  {
    var broken := Target("broken", Responses(Located(region), PolicyText(Unparsable), put));
    var doc := map["Statement" := JArr([Canonical("synced", ranges)])];
    var synced := Target("synced", Responses(Located(region), PolicyText(Parsed(doc)), put));
    SoleCanonicalInSync("synced", ranges);
    UnparsableProbe("broken", region, ranges, put);
    InSyncProbe("synced", region, doc, ranges, put);
    FirstBlockedReport([broken, synced], ranges);
  }

  /** Of two buckets, the first unparsable and the second inspected: the run
      reports the first and sends nothing. */
  lemma FirstBlockedReport(targets: seq<Target>, ranges: seq<string>)
    requires |targets| == 2
    requires ProbeTarget(targets[0], ranges) == ParseFailed
    requires ProbeTarget(targets[1], ranges).Probed?
    ensures Run(targets, ranges) == RunResult([], 0, [targets[0].name], [], ReturnedNothing)
  {
    var ts := Pass1(targets, ranges);
    assert !AnyCrashed(ts);
    assert Filter(ts, Blocked) == [ts[0]] by {
      assert ts[1..][1..] == [];
    }
    GetParseReport(targets, ranges);
  }

  /** A `$&` in a bucket name brings the placeholder back into the Resource
      instead of the name's own characters. */
  lemma DollarNameResource()
    ensures ResourceFor("a$&") == "arn:aws:s3:::a__BUCKET_NAME__/*"
  {
    ExpandPatterns("");
    assert "a$&"[1..] == "$&";
    assert "$&" == "$&" + "";
  }

  /** A bucket whose policy text is unparsable records a parse failure. */
  lemma UnparsableProbe(bucket: string, region: string, ranges: seq<string>, put: PutResponse)
    ensures ProbeTarget(Target(bucket, Responses(Located(region), PolicyText(Unparsable), put)), ranges)
         == ParseFailed
  {
  }

  /** A bucket whose parsed policy is in sync is inspected and does not differ. */
  lemma InSyncProbe(bucket: string, region: string, doc: Doc, ranges: seq<string>, put: PutResponse)
    requires Diff(Parsed(doc), Canonical(bucket, ranges)) == Differs(false)
    ensures ProbeTarget(Target(bucket, Responses(Located(region), PolicyText(Parsed(doc)), put)), ranges)
         == Probed(region, Some(doc), false)
  {
  }

  /** A policy holding only the canonical statement is in sync. */
  lemma SoleCanonicalInSync(bucket: string, ranges: seq<string>)
    ensures var c := Canonical(bucket, ranges);
            Diff(Parsed(map["Statement" := JArr([c])]), c) == Differs(false)
  {
    var c := Canonical(bucket, ranges);
    assert Managed([c]) == [c] by {
      assert [c][1..] == [];
    }
  }

  /** The sentinel error of GetBucketPolicy means "no policy", not a failure. */
  lemma SentinelMeansAbsent(bucket: string, region: string, ranges: seq<string>, put: PutResponse)
    ensures ProbeTarget(Target(bucket, Responses(Located(region), PolicyError(NoPolicyMessage), put)), ranges)
         == Probed(region, None, true)
  {
  }
}
