/** Results, failures and the fetch interface shared by the scraper's modules. */
module Outcome {

  datatype Option<T> = None | Some(value: T)

  /** A field of `StudentsModel`, named in a validation failure. */
  datatype Field = Year | ExamType | SchoolNumber

  /** The exceptions the core raises, one constructor per raise site. */
  datatype Error =
    | ValidationFailed(fields: seq<Field>)   // pydantic's ValidationError, failing fields in declaration order
    | UnknownExamType(examType: string)      // the ValueError / Exception of an exam type outside both tables
    | RemoteFailure(url: string, status: int) // a roster response whose status code is not 200
    | ConnectFailure(status: int)            // a summary response whose status code is not 200
    | MissingSchema(url: string)             // `requests.get` of a URL that names no scheme
    | TableMissing(index: nat, count: nat)   // `find_all("table")[index]` past the last table
    | RowTooShort(cells: nat)                // `row[4]` on a row of fewer than five cells
    | EntryWithoutHyphen(entry: string)      // `q[1]` on a subject entry that has no '-'

  datatype Result<T> = Ok(value: T) | Err(error: Error)

  /** The values of the results in turn, or the error of the first one that failed. */
  function AllOk<T>(rs: seq<Result<T>>): Result<seq<T>>
  {
    if rs == [] then Ok([])
    else match AllOk(rs[..|rs| - 1])
      case Err(e) => Err(e)
      case Ok(vs) =>
        var last := rs[|rs| - 1];
        if last.Ok? then Ok(vs + [last.value]) else Err(last.error)
  }

  /** One result more: its value is appended, or its error taken, unless an error came before. */
  lemma AllOkStep<T>(rs: seq<Result<T>>, k: nat)
    requires k < |rs|
    ensures AllOk(rs[..k + 1]) == match AllOk(rs[..k])
                                  case Err(e) => Err(e)
                                  case Ok(vs) => if rs[k].Ok? then Ok(vs + [rs[k].value]) else Err(rs[k].error)
  {
    assert rs[..k + 1][..k] == rs[..k];
  }

  /** Once an error is found the later results play no part. */
  lemma {:induction false} AllOkErr<T>(rs: seq<Result<T>>, k: nat)
    requires k <= |rs| && AllOk(rs[..k]).Err?
    ensures AllOk(rs) == AllOk(rs[..k])
    decreases |rs| - k
  {
    if k < |rs| {
      AllOkStep(rs, k);
      AllOkErr(rs, k + 1);
    } else {
      assert rs[..k] == rs;
    }
  }

  /** All results succeed exactly when the combination does. */
  lemma {:induction false} AllOkIff<T>(rs: seq<Result<T>>)
    ensures AllOk(rs).Ok? <==> forall i :: 0 <= i < |rs| ==> rs[i].Ok?
  {
    if rs != [] {
      var init := rs[..|rs| - 1];
      AllOkIff(init);
      assert forall i :: 0 <= i < |init| ==> init[i] == rs[i];
    }
  }

  /** A successful combination holds every value, in order. */
  lemma {:induction false} AllOkValues<T>(rs: seq<Result<T>>)
    requires AllOk(rs).Ok?
    ensures |AllOk(rs).value| == |rs|
    ensures forall i :: 0 <= i < |rs| ==> rs[i].Ok? && AllOk(rs).value[i] == rs[i].value
  {
    if rs != [] {
      var init := rs[..|rs| - 1];
      AllOkValues(init);
      assert forall i :: 0 <= i < |init| ==> init[i] == rs[i];
    }
  }

  /** A failed combination carries the error of the first failed result. */
  lemma AllOkFirstErr<T>(rs: seq<Result<T>>, i: nat)
    requires i < |rs| && rs[i].Err?
    requires forall j :: 0 <= j < i ==> rs[j].Ok?
    ensures AllOk(rs) == Err(rs[i].error)
  {
    AllOkIff(rs[..i]);
    AllOkStep(rs, i);
    AllOkErr(rs, i + 1);
  }

  /** What the page fetcher returns for a URL: the status code and the parsed page. */
  datatype Response<P> = Response(status: int, page: P)
}
