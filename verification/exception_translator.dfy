/** SemanticExceptionTranslator: the translation of a runtime exception into
    Spring's data-access hierarchy, decided by the kind of its cause. */
module ExceptionTranslation {

  import opened Wrappers

  /** A Java throwable: the names of its class and of all its supertypes
      (what `instanceof` tests), its message and its cause, if any. */
  datatype Throwable = Throwable(lineage: set<string>, message: string, cause: Option<Throwable>)

  const RepositoryExceptionClass: string := "org.openrdf.repository.RepositoryException"
  const QueryEvaluationExceptionClass: string := "org.openrdf.query.QueryEvaluationException"
  const MalformedQueryExceptionClass: string := "org.openrdf.query.MalformedQueryException"

  predicate InstanceOf(t: Throwable, className: string)
  {
    className in t.lineage
  }

  /** The two translations: DataAccessResourceFailureException and
      InvalidDataAccessApiUsageException, each with a message and a cause. */
  datatype DataAccessException =
    | ResourceFailure(message: string, cause: Throwable)
    | InvalidApiUsage(message: string, cause: Throwable)

  /** translateExceptionIfPossible: None stands for the null result. */
  function TranslateExceptionIfPossible(ex: Throwable): (r: Option<DataAccessException>)
    // a repository failure in the cause is a resource failure, and wins over the query kinds
    ensures ex.cause.Some? && InstanceOf(ex.cause.value, RepositoryExceptionClass) ==>
      r == Some(ResourceFailure(ex.cause.value.message, ex.cause.value))
    // a failed or malformed query in the cause is misuse of the API
    ensures ex.cause.Some? && !InstanceOf(ex.cause.value, RepositoryExceptionClass)
            && (InstanceOf(ex.cause.value, QueryEvaluationExceptionClass)
                || InstanceOf(ex.cause.value, MalformedQueryExceptionClass)) ==>
      r == Some(InvalidApiUsage(ex.cause.value.message, ex.cause.value))
    // anything else, a missing cause included, is not translated
    ensures r.None? <==>
      ex.cause.None?
      || (!InstanceOf(ex.cause.value, RepositoryExceptionClass)
          && !InstanceOf(ex.cause.value, QueryEvaluationExceptionClass)
          && !InstanceOf(ex.cause.value, MalformedQueryExceptionClass))
  {
    match ex.cause
    case None => None
    case Some(e) =>
      if InstanceOf(e, RepositoryExceptionClass) then Some(ResourceFailure(e.message, e))
      else if InstanceOf(e, QueryEvaluationExceptionClass) || InstanceOf(e, MalformedQueryExceptionClass) then
        Some(InvalidApiUsage(e.message, e))
      else None
  }

  /** Only the cause is inspected: the outer exception's own class and message
      make no difference. */
  lemma OnlyCauseInspected(ex: Throwable, other: Throwable)
    requires ex.cause == other.cause
    ensures TranslateExceptionIfPossible(ex) == TranslateExceptionIfPossible(other)
  {
  }

  /** A translation always carries the original cause and its message. */
  lemma TranslationKeepsCause(ex: Throwable)
    requires TranslateExceptionIfPossible(ex).Some?
    ensures ex.cause.Some?
    ensures TranslateExceptionIfPossible(ex).value.cause == ex.cause.value
    ensures TranslateExceptionIfPossible(ex).value.message == ex.cause.value.message
  {
  }

  /** An outer exception that is itself a RepositoryException, with no cause,
      is not translated. */
  lemma OuterKindIgnored(message: string)
    ensures TranslateExceptionIfPossible(Throwable({RepositoryExceptionClass}, message, None)) == None
  {
  }
}
