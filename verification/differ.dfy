/** Deciding whether a bucket's current policy already holds the canonical
    statement (handlers/index.cjs, lines 138-194). */
module Differ {
  import opened Wrappers
  import opened Seqs
  import opened JsonValues
  import opened ManagedStatement

  /** The policy as fetched: no policy text at all or an empty one, text that
      `JSON.parse` rejects, or a parsed top-level object. */
  datatype CurrentPolicy = Absent | Unparsable | Parsed(doc: Doc)

  /** The verdict of the first pass for one bucket. `Uncaught` is a TypeError
      thrown outside any try block, which rejects the whole invocation. */
  datatype DiffOutcome = Differs(differs: bool) | ParseFailure | Uncaught

  const StatementKey: string := "Statement"

  /** A parsed policy with an own key of this name shadows the method the
      handler calls on it, so the call throws. */
  const ShadowedMethod: string := "hasOwnProperty"

  /** The policy's statement list, when `Statement` is present and an array. */
  function StatementList(doc: Doc): (r: Option<seq<Json>>)
    ensures r.Some? <==> StatementKey in doc && doc[StatementKey].JArr?
    ensures r.Some? ==> r.value == doc[StatementKey].items
  {
    if StatementKey in doc && doc[StatementKey].JArr? then Some(doc[StatementKey].items) else None
  }

  /** Reading `.Sid` of every statement succeeds: none is null. */
  predicate StatementsReadable(doc: Doc) {
    StatementList(doc).Some? ==> JNull !in StatementList(doc).value
  }

  /** The handler can inspect this parsed policy without throwing. */
  predicate Inspectable(doc: Doc) {
    ShadowedMethod !in doc && StatementsReadable(doc)
  }

  /** The differ for one bucket, given the bucket's canonical statement. */
  function Diff(p: CurrentPolicy, expected: Json): (r: DiffOutcome)
    ensures r.ParseFailure? <==> p.Unparsable?
    ensures r.Uncaught? <==> p.Parsed? && !Inspectable(p.doc)
    ensures p.Absent? ==> r == Differs(true)
    ensures p.Parsed? && Inspectable(p.doc) && StatementList(p.doc).None? ==> r == Differs(true)
  {
    match p
    case Absent => Differs(true)
    case Unparsable => ParseFailure
    case Parsed(doc) =>
      if ShadowedMethod in doc then Uncaught
      else match StatementList(doc)
        case None => Differs(true)
        case Some(stmts) =>
          if JNull in stmts then Uncaught
          else
            var found := Managed(stmts);
            if |found| == 1 then Differs(found[0] != expected)
            else Differs(true)
  }

  /** A policy is in sync exactly when its statement list holds `expected` at
      one index and no other statement carries the managed Sid. */
  lemma InSyncIff(doc: Doc, expected: Json)
    requires IsManaged(expected)
    requires Inspectable(doc)
    ensures Diff(Parsed(doc), expected) == Differs(false) <==>
            StatementList(doc).Some? &&
            exists i :: 0 <= i < |StatementList(doc).value| &&
                        StatementList(doc).value[i] == expected &&
                        OnlyAcceptedAt(StatementList(doc).value, IsManaged, i)
  {
    if StatementList(doc).Some? {
      var stmts := StatementList(doc).value;
      FilterSingleton(stmts, IsManaged, expected);
      var found := Managed(stmts);
      if |found| == 1 {
        assert found == [found[0]];
      }
    }
  }

  /** No managed statement, or two or more of them, always forces a rewrite. */
  lemma MissingOrDuplicatedDiffers(doc: Doc, expected: Json)
    requires Inspectable(doc)
    requires StatementList(doc).Some? && |Managed(StatementList(doc).value)| != 1
    ensures Diff(Parsed(doc), expected) == Differs(true)
  {
  }

  /** A single managed statement that is not deep-equal to the canonical one
      forces a rewrite. */
  lemma StaleStatementDiffers(doc: Doc, expected: Json)
    requires Inspectable(doc)
    requires StatementList(doc).Some?
    requires Managed(StatementList(doc).value) != [expected]
    ensures Diff(Parsed(doc), expected) == Differs(true)
  {
    var found := Managed(StatementList(doc).value);
    if |found| == 1 {
      assert found == [found[0]];
    }
  }
}
