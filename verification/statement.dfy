/** The one statement the handler owns in each bucket policy
    (handlers/index.cjs, lines 18-34, 64, 171, 177-178, 248, 252-253). */
module ManagedStatement {
  import opened Wrappers
  import opened Seqs
  import opened JsonValues

  /** The fixed statement identifier that marks the managed statement. */
  const Sid: string := "S3CloudflarePolicyWriterManagedStatement"

  const ResourcePrefix: string := "arn:aws:s3:::"
  const BucketPlaceholder: string := "__BUCKET_NAME__"
  const ResourceSuffix: string := "/*"

  /** The statement template's Resource, before the bucket name is substituted. */
  const ResourceTemplate: string := ResourcePrefix + BucketPlaceholder + ResourceSuffix

  /** The text `String.prototype.replace` inserts for the replacement string
      `r` when the pattern is a plain string matched once in ResourceTemplate:
      `$$` stands for `$`, `$&` for the matched placeholder, `` $` `` for the text
      before the match and `$'` for the text after it; with no capture groups,
      every other `$` is literal. */
  function Expand(r: string): (e: string)
    ensures '$' !in r ==> e == r
    decreases |r|
  {
    if |r| == 0 then ""
    else if r[0] == '$' && |r| >= 2 && r[1] == '$' then "$" + Expand(r[2..])
    else if r[0] == '$' && |r| >= 2 && r[1] == '&' then BucketPlaceholder + Expand(r[2..])
    else if r[0] == '$' && |r| >= 2 && r[1] == '`' then ResourcePrefix + Expand(r[2..])
    else if r[0] == '$' && |r| >= 2 && r[1] == '\'' then ResourceSuffix + Expand(r[2..])
    else
      assert r == [r[0]] + r[1..];
      [r[0]] + Expand(r[1..])
  }

  /** The four two-character patterns each stand for their own text. */
  lemma ExpandPatterns(rest: string)
    ensures Expand("$$" + rest) == "$" + Expand(rest)
    ensures Expand("$&" + rest) == BucketPlaceholder + Expand(rest)
    ensures Expand("$`" + rest) == ResourcePrefix + Expand(rest)
    ensures Expand("$'" + rest) == ResourceSuffix + Expand(rest)
  {
    assert ("$$" + rest)[2..] == rest;
    assert ("$&" + rest)[2..] == rest;
    assert ("$`" + rest)[2..] == rest;
    assert ("$'" + rest)[2..] == rest;
  }

  /** A `$` that starts no pattern is kept as it is. */
  lemma ExpandLoneDollar(c: char, rest: string)
    requires c != '$' && c != '&' && c != '`' && c != '\''
    ensures Expand("$" + [c] + rest) == "$" + Expand([c] + rest)
  {
    assert ("$" + [c] + rest)[1..] == [c] + rest;
  }

  /** The template's Resource with its placeholder replaced by the bucket name,
      as `replace` inserts it. The placeholder occurs once, between
      ResourcePrefix and ResourceSuffix. */
  function ResourceFor(bucket: string): (resource: string)
    ensures '$' !in bucket ==> resource == ResourcePrefix + bucket + ResourceSuffix
    ensures |resource| >= |ResourcePrefix| + |ResourceSuffix|
    ensures resource[..|ResourcePrefix|] == ResourcePrefix
  {
    ResourcePrefix + Expand(bucket) + ResourceSuffix
  }

  /** Distinct bucket names that real buckets can have (no `$`) get distinct
      Resources. */
  lemma ResourceInjective(b1: string, b2: string)
    requires '$' !in b1 && '$' !in b2
    requires ResourceFor(b1) == ResourceFor(b2)
    ensures b1 == b2
  {
    var r := ResourceFor(b1);
    assert b1 == r[|ResourcePrefix|..|r| - |ResourceSuffix|];
    assert b2 == r[|ResourcePrefix|..|r| - |ResourceSuffix|];
  }

  /** The range list as a JSON array of strings. */
  function SourceIps(ranges: seq<string>): (items: seq<Json>)
    ensures |items| == |ranges|
    ensures forall i :: 0 <= i < |ranges| ==> items[i] == JStr(ranges[i])
  {
    seq(|ranges|, i requires 0 <= i < |ranges| => JStr(ranges[i]))
  }

  /** The canonical statement for `bucket`: the template with the bucket's
      Resource and the current range list as the allowed source addresses. */
  function Canonical(bucket: string, ranges: seq<string>): (s: Json)
    ensures IsManaged(s)
  {
    JObj(map[
      "Sid" := JStr(Sid),
      "Effect" := JStr("Allow"),
      "Action" := JStr("s3:GetObject"),
      "Principal" := JStr("*"),
      "Resource" := JStr(ResourceFor(bucket)),
      "Condition" := JObj(map["IpAddress" := JObj(map["aws:SourceIp" := JArr(SourceIps(ranges))])])
    ])
  }

  /** The canonical statement has exactly the template's six fields, with the
      fixed Sid, effect, action and principal and the bucket's Resource. */
  lemma CanonicalFields(bucket: string, ranges: seq<string>)
    ensures var s := Canonical(bucket, ranges);
            && s.JObj?
            && s.fields.Keys == {"Sid", "Effect", "Action", "Principal", "Resource", "Condition"}
            && Lookup(s, "Sid") == Some(JStr(Sid))
            && Lookup(s, "Effect") == Some(JStr("Allow"))
            && Lookup(s, "Action") == Some(JStr("s3:GetObject"))
            && Lookup(s, "Principal") == Some(JStr("*"))
            && Lookup(s, "Resource") == Some(JStr(ResourceFor(bucket)))
  {
  }

  /** The statement's `Sid` property is the managed identifier. Reading the
      property of anything but an object (a string, number, boolean, array)
      gives nothing, so only an object can be managed. */
  predicate IsManaged(s: Json)
    ensures IsManaged(s) <==> Lookup(s, "Sid") == Some(JStr(Sid))
  {
    s.JObj? && "Sid" in s.fields && s.fields["Sid"] == JStr(Sid)
  }

  /** Any statement whose `Sid` property is missing or is not the managed
      identifier belongs to another writer. */
  predicate IsForeign(s: Json)
    ensures IsForeign(s) <==> Lookup(s, "Sid") != Some(JStr(Sid))
  {
    !IsManaged(s)
  }

  /** The statements carrying the managed Sid, in order. */
  function Managed(stmts: seq<Json>): (found: seq<Json>)
    ensures forall i :: 0 <= i < |found| ==> found[i] in stmts && IsManaged(found[i])
    ensures forall i :: 0 <= i < |stmts| && IsManaged(stmts[i]) ==> stmts[i] in found
  {
    Filter(stmts, IsManaged)
  }

  /** The statements other writers own, in order. */
  function Foreign(stmts: seq<Json>): (kept: seq<Json>)
    ensures forall i :: 0 <= i < |kept| ==> kept[i] in stmts && IsForeign(kept[i])
    ensures forall i :: 0 <= i < |stmts| && IsForeign(stmts[i]) ==> stmts[i] in kept
  {
    Filter(stmts, IsForeign)
  }

  /** Every statement is either managed or foreign: the two lists together are
      as long as the statement list. */
  lemma {:induction false} ManagedForeignPartition(stmts: seq<Json>)
    ensures |Managed(stmts)| + |Foreign(stmts)| == |stmts|
    decreases |stmts|
  {
    if |stmts| > 0 {
      ManagedForeignPartition(stmts[1..]);
    }
  }

  /** The strings of an array made only of strings. */
  function AsStrings(items: seq<Json>): (r: Option<seq<string>>)
    decreases |items|
  {
    if |items| == 0 then Some([])
    else if !items[0].JStr? then None
    else match AsStrings(items[1..])
      case None => None
      case Some(rest) => Some([items[0].str] + rest)
  }

  /** The statement's allowed source addresses, found under Condition, then
      IpAddress, then aws:SourceIp, read back as a list of strings. */
  function SourceIpOf(s: Json): Option<seq<string>> {
    match Lookup(s, "Condition")
    case None => None
    case Some(condition) =>
      match Lookup(condition, "IpAddress")
      case None => None
      case Some(ipAddress) =>
        match Lookup(ipAddress, "aws:SourceIp")
        case Some(JArr(items)) => AsStrings(items)
        case _ => None
  }

  lemma {:induction false} AsStringsOfSourceIps(ranges: seq<string>)
    ensures AsStrings(SourceIps(ranges)) == Some(ranges)
    decreases |ranges|
  {
    if |ranges| > 0 {
      AsStringsOfSourceIps(ranges[1..]);
      assert SourceIps(ranges)[1..] == SourceIps(ranges[1..]);
      assert ranges == [ranges[0]] + ranges[1..];
    }
  }

  /** The canonical statement's source-address condition is the range list
      exactly: same entries, same order, duplicates kept. */
  lemma CanonicalSourceIps(bucket: string, ranges: seq<string>)
    ensures SourceIpOf(Canonical(bucket, ranges)) == Some(ranges)
  {
    AsStringsOfSourceIps(ranges);
  }

  /** The canonical statement determines its range list and its Resource, and,
      for bucket names without `$`, its bucket. */
  lemma CanonicalInjective(b1: string, r1: seq<string>, b2: string, r2: seq<string>)
    requires Canonical(b1, r1) == Canonical(b2, r2)
    ensures r1 == r2
    ensures ResourceFor(b1) == ResourceFor(b2)
    ensures '$' !in b1 && '$' !in b2 ==> b1 == b2
  {
    CanonicalSourceIps(b1, r1);
    CanonicalSourceIps(b2, r2);
    CanonicalFields(b1, r1);
    CanonicalFields(b2, r2);
    assert Lookup(Canonical(b1, r1), "Resource") == Lookup(Canonical(b2, r2), "Resource");
    if '$' !in b1 && '$' !in b2 {
      ResourceInjective(b1, b2);
    }
  }
}
