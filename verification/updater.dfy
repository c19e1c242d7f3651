/** Writing the canonical statement into a bucket's policy
    (handlers/index.cjs, lines 239-254). */
module Updater {
  import opened Wrappers
  import opened Seqs
  import opened JsonValues
  import opened ManagedStatement
  import opened Differ

  /** The document used when a bucket has no policy yet. */
  const Skeleton: Doc := map["Version" := JStr("2012-10-17"), StatementKey := JArr([])]

  /** The document the update starts from: the parsed policy, or the skeleton
      when there is none. */
  function Base(current: Option<Doc>): (base: Doc)
    ensures current.None? ==> base == Skeleton
    ensures current.Some? ==> base == current.value
  {
    current.GetOr(Skeleton)
  }

  /** The statements the update starts from; a `Statement` that is missing or
      not an array counts as none. */
  function ExistingStatements(current: Option<Doc>): (stmts: seq<Json>)
    ensures current.None? ==> stmts == []
    ensures current.Some? && StatementList(current.value).Some? ==>
            stmts == current.value[StatementKey].items
    ensures current.Some? && StatementList(current.value).None? ==> stmts == []
  {
    StatementList(Base(current)).GetOr([])
  }

  /** The policy submitted for a differing bucket: every managed statement
      removed, the canonical one appended, every other key kept. */
  function Update(current: Option<Doc>, bucket: string, ranges: seq<string>): (r: Doc)
    requires current.Some? ==> StatementsReadable(current.value)
    ensures r.Keys == Base(current).Keys + {StatementKey}
    ensures forall k :: k in Base(current) && k != StatementKey ==> r[k] == Base(current)[k]
    ensures StatementList(r).Some?
  {
    var base := Base(current);
    var kept := Foreign(ExistingStatements(current));
    base[StatementKey := JArr(kept + [Canonical(bucket, ranges)])]
  }

  /** The updated statement list: the canonical statement last and as the
      only managed one, the foreign statements exactly as before, in order. */
  lemma UpdateStatements(current: Option<Doc>, bucket: string, ranges: seq<string>)
    requires current.Some? ==> StatementsReadable(current.value)
    ensures var stmts := StatementList(Update(current, bucket, ranges)).value;
            && |stmts| >= 1
            && stmts[|stmts| - 1] == Canonical(bucket, ranges)
            && Managed(stmts) == [Canonical(bucket, ranges)]
            && Foreign(stmts) == Foreign(ExistingStatements(current))
  {
    var c := Canonical(bucket, ranges);
    var kept := Foreign(ExistingStatements(current));
    assert StatementList(Update(current, bucket, ranges)).value == kept + [c];
    ForeignThenManaged(ExistingStatements(current), c);
  }

  /** A bucket without a policy gets the skeleton holding just the canonical
      statement. */
  lemma AbsentPolicyGetsSkeleton(bucket: string, ranges: seq<string>)
    ensures Update(None, bucket, ranges)
         == map["Version" := JStr("2012-10-17"), StatementKey := JArr([Canonical(bucket, ranges)])]
  {
    var c := Canonical(bucket, ranges);
    assert ExistingStatements(None) == [];
    assert Base(None) == Skeleton;
    assert Foreign(ExistingStatements(None)) + [c] == [c];
    assert Update(None, bucket, ranges) == Skeleton[StatementKey := JArr([c])];
    assert "Version" != StatementKey;
  }

  /** Appending a managed statement to the foreign statements of a list leaves
      that statement as the only managed one and the foreign ones as they were. */
  lemma ForeignThenManaged(before: seq<Json>, stmt: Json)
    requires IsManaged(stmt)
    ensures Managed(Foreign(before) + [stmt]) == [stmt]
    ensures Foreign(Foreign(before) + [stmt]) == Foreign(before)
  {
    var kept := Foreign(before);
    FilterConcat(kept, [stmt], IsManaged);
    FilterConcat(kept, [stmt], IsForeign);
    FilterRejectsAll(kept, IsManaged);
    FilterIdempotent(before, IsForeign);
    assert Filter([stmt], IsForeign) == [] by {
      assert [stmt][1..] == [];
    }
    assert Filter([stmt], IsManaged) == [stmt] by {
      assert [stmt][1..] == [];
    }
  }

  /** Every statement without the managed Sid survives the update. */
  lemma ForeignSurvive(current: Option<Doc>, bucket: string, ranges: seq<string>, s: Json)
    requires current.Some? ==> StatementsReadable(current.value)
    requires s in ExistingStatements(current) && IsForeign(s)
    ensures s in StatementList(Update(current, bucket, ranges)).value
  {
    var before := ExistingStatements(current);
    var after := StatementList(Update(current, bucket, ranges)).value;
    UpdateStatements(current, bucket, ranges);
    var i :| 0 <= i < |before| && before[i] == s;
    assert s in Foreign(before);
    assert s in Foreign(after);
  }

  /** A `Statement` that is present but not an array (for instance a single
      statement object) is discarded, foreign content included. */
  lemma NonArrayStatementDiscarded(doc: Doc, bucket: string, ranges: seq<string>)
    requires StatementKey in doc && !doc[StatementKey].JArr?
    ensures Update(Some(doc), bucket, ranges)[StatementKey] == JArr([Canonical(bucket, ranges)])
  {
    FilterRejectsAll([], IsForeign);
  }

  /** Updating an updated policy changes nothing. */
  lemma UpdateIdempotent(current: Option<Doc>, bucket: string, ranges: seq<string>)
    requires current.Some? ==> StatementsReadable(current.value)
    ensures var once := Update(current, bucket, ranges);
            StatementsReadable(once) && Update(Some(once), bucket, ranges) == once
  {
    var c := Canonical(bucket, ranges);
    var kept := Foreign(ExistingStatements(current));
    var once := Update(current, bucket, ranges);
    assert once == Base(current)[StatementKey := JArr(kept + [c])];
    ForeignThenManaged(ExistingStatements(current), c);
    assert ExistingStatements(Some(once)) == kept + [c];
    assert once[StatementKey := JArr(kept + [c])] == once;
  }

  /** An updated policy holds no null statement and gains no key it lacked
      besides `Statement`. */
  lemma UpdatedReadable(current: Option<Doc>, bucket: string, ranges: seq<string>)
    requires current.Some? ==> Inspectable(current.value)
    ensures Inspectable(Update(current, bucket, ranges))
  {
    var before := ExistingStatements(current);
    assert JNull !in before by {
      if current.None? {
        assert before == [];
      }
    }
    var kept := Foreign(before);
    var r := Update(current, bucket, ranges);
    assert ShadowedMethod !in r by {
      assert ShadowedMethod !in Base(current);
    }
    var stmts := StatementList(r).value;
    assert stmts == kept + [Canonical(bucket, ranges)];
    forall i | 0 <= i < |stmts|
      ensures stmts[i] != JNull
    {
      if i < |kept| {
        assert kept[i] in before;
      }
    }
  }

  /** Idempotence of the pair: the differ finds every updated policy in sync. */
  lemma UpdateThenDiffInSync(current: Option<Doc>, bucket: string, ranges: seq<string>)
    requires current.Some? ==> Inspectable(current.value)
    ensures Diff(Parsed(Update(current, bucket, ranges)), Canonical(bucket, ranges)) == Differs(false)
  {
    UpdatedReadable(current, bucket, ranges);
    UpdateStatements(current, bucket, ranges);
  }
}
