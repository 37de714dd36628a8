/** The computed `tags` field of the `Task` GraphQL type. */
module TaskType {
  import opened Wrappers
  import opened JsStrings

  /** Reading a property of `null` or `undefined` throws a `TypeError`. */
  datatype ResolverError = TypeError

  /** The `tags` resolver: `source.tags.split(',')` over the comma-separated column. */
  function Tags(tags: Option<string>): (r: Result<seq<string>, ResolverError>)
    ensures r.Failure? <==> tags.None?
    ensures r.Success? ==> Join(r.value, ",") == tags.value
    ensures r.Success? ==> forall i :: 0 <= i < |r.value| ==> ',' !in r.value[i]
    ensures r.Success? ==> |r.value| == Count(tags.value, ',') + 1
  {
    match tags
    case None => Failure(TypeError)
    case Some(column) => Success(Split(column, ','))
  }

  /**
   * The tags are the column's segments in their stored order: any list of
   * comma-free tags stored as its `join(',')` comes back unchanged.
   */
  lemma TagsOfJoined(tagList: seq<string>)
    requires |tagList| > 0
    requires forall i :: 0 <= i < |tagList| ==> ',' !in tagList[i]
    ensures Tags(Some(Join(tagList, ","))) == Success(tagList)
  {
    SplitJoin(tagList, ',');
  }

  /** A column without a comma, the empty one included, gives a single tag. */
  lemma TagsWithoutComma(column: string)
    requires ',' !in column
    ensures Tags(Some(column)) == Success([column])
  {
    SplitSegment(column, ',');
  }
}
