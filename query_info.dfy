/**
 * Query metrics records (src/realm/metrics/query_info.cpp): the mapping from an
 * aggregate action to the kind of query that is recorded, and the stored fields
 * of a record.
 */
module QueryInfo {
  import opened Wrappers

  /** The aggregate actions a query can run (realm::Action). */
  datatype Action =
    | ReturnFirst | Sum | Max | Min | Average | Count | FindAll | CallbackIdx

  /** The kinds of query a metrics record can describe (QueryInfo::QueryType). */
  datatype QueryType =
    | Find | FindAllType | CountType | SumType | AverageType | Maximum | Minimum | Invalid

  /** QueryInfo::type_from_action: a total switch over the actions. */
  function TypeFromAction(a: Action): (t: QueryType)
    ensures t == Invalid <==> a == CallbackIdx
    ensures a == ReturnFirst ==> t == Find
    ensures a == FindAll ==> t == FindAllType
    ensures a == Count ==> t == CountType
  {
    match a
    case ReturnFirst => Find
    case Sum => SumType
    case Max => Maximum
    case Min => Minimum
    case Average => AverageType
    case Count => CountType
    case FindAll => FindAllType
    case CallbackIdx => Invalid
  }

  /** The action a recorded query type came from; the partner of TypeFromAction. */
  function ActionOfType(t: QueryType): (a: Option<Action>)
    ensures a.None? <==> t == Invalid
  {
    match t
    case Find => Some(ReturnFirst)
    case FindAllType => Some(FindAll)
    case CountType => Some(Count)
    case SumType => Some(Sum)
    case AverageType => Some(Average)
    case Maximum => Some(Max)
    case Minimum => Some(Min)
    case Invalid => None
  }

  /** Every action except the callback one is recovered from its query type. */
  lemma TypeFromActionRecoverable(a: Action)
    requires a != CallbackIdx
    ensures ActionOfType(TypeFromAction(a)) == Some(a)
  {
  }

  /** So no two of the seven aggregate actions share a query type. */
  lemma {:induction false} TypeFromActionInjective(a: Action, b: Action)
    requires a != CallbackIdx && b != CallbackIdx
    requires TypeFromAction(a) == TypeFromAction(b)
    ensures a == b
  {
    TypeFromActionRecoverable(a);
    TypeFromActionRecoverable(b);
  }

  /** One metrics record: the query's description, its kind and an optional timer. */
  class Info {
    const queryType: QueryType
    const description: string
    /** Elapsed nanoseconds of the attached timer, or None when no timer is attached. */
    var queryTime: Option<nat>

    /**
     * The constructor stores the query's description; describing a query that is
     * restricted by a view throws, and then the exception's message is stored.
     */
    constructor (described: Result<string>, t: QueryType)
      ensures queryType == t && queryTime == None
      ensures description == (match described case Ok(d) => d case Err(m) => m)
    {
      queryType := t;
      description := match described case Ok(d) => d case Err(m) => m;
      queryTime := None;
    }

    /** QueryInfo::get_query_time_nanoseconds. */
    function QueryTimeNanoseconds(): (ns: nat)
      reads this
      ensures queryTime.None? ==> ns == 0
      ensures queryTime.Some? ==> ns == queryTime.value
    {
      match queryTime
      case Some(t) => t
      case None => 0
    }
  }
}
