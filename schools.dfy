/**
 * `schools`: the roster of every school and centre that sat an exam in a year, read from the
 * anchors of the roster page.
 */
module Schools {
  import opened Text
  import opened Outcome
  import Model

  /** A parsed roster page: for each `<font>` element in document order, the texts of its anchors. */
  type RosterPage = seq<seq<string>>

  datatype SchoolRecord = SchoolRecord(schoolName: string, schoolNumber: string)

  /** The dictionary `schools` returns. */
  datatype RosterResult = RosterResult(
    examType: string,
    yearOfExam: int,
    numberOfSchools: nat,
    description: string,
    schools: seq<SchoolRecord>)

  /** The roster page to fetch and how many leading decorative anchors it carries. */
  datatype Target = Target(url: string, skip: nat)

  /** The URL and skip count chosen in `schools`, after lower-casing the exam type. */
  function RosterTarget(year: int, examType: string): (r: Result<Target>)
    ensures r.Err? <==> Lower(examType) != "csee" && Lower(examType) != "acsee"
    ensures r.Err? ==> r.error == UnknownExamType(Lower(examType))
    ensures r.Ok? && Lower(examType) == "csee" ==> r.value.skip == if year > 2014 then 28 else 0
    ensures r.Ok? && Lower(examType) == "acsee" ==> r.value.skip == if year > 2015 then 27 else 0
  {
    var examType := Lower(examType);
    if examType == "csee" then
      var url :=
        if year == 2022 then "https://onlinesys.necta.go.tz/results/2022/csee/index.htm"
        else if year == 2016 then "https://onlinesys.necta.go.tz/results/" + IntToString(year) + "/csee/index.htm"
        else "https://onlinesys.necta.go.tz/results/" + IntToString(year) + "/csee/csee.htm";
      Ok(Target(url, if year > 2014 then 28 else 0))
    else if examType == "acsee" then
      var url :=
        if year == 2023 then "https://matokeo.necta.go.tz/results/2023/acsee/index.htm"
        else if year > 2019 then "https://onlinesys.necta.go.tz/results/" + IntToString(year) + "/acsee/index.htm"
        else if year == 2014 then "https://onlinesys.necta.go.tz/results/2014/acsee/"
        else "https://onlinesys.necta.go.tz/results/" + IntToString(year) + "/acsee/acsee.htm";
      Ok(Target(url, if year > 2015 then 27 else 0))
    else
      Err(UnknownExamType(examType))
  }

  /**
   * The roster URL chosen here is the one `get_school_url` gives for the lower-cased exam type; unlike
   * `get_school_url`, any letter case of a known exam type is found.
   */
  lemma RosterUrlAgrees(year: int, examType: string)
    ensures RosterTarget(year, examType).Ok? <==> Model.GetSchoolUrl(Model.NectaBase(year, Lower(examType))).Ok?
    ensures RosterTarget(year, examType).Ok? ==>
              RosterTarget(year, examType).value.url == Model.GetSchoolUrl(Model.NectaBase(year, Lower(examType))).value
    ensures RosterTarget(year, examType) == RosterTarget(year, Lower(examType))
  {
    var e := Lower(examType);
    assert Lower(e) == e by {
      forall i | 0 <= i < |e| ensures Lower(e)[i] == e[i] { }
    }
  }

  /** The two newline characters `strip('\n\r')` removes. */
  const LineBreaks: set<char> := {'\n', '\r'}

  /** The record `schools` builds from one anchor's text. */
  function RecordOf(text: string): SchoolRecord
  {
    var school := Split(Strip(text, LineBreaks), ' ');
    SchoolRecord(SepPrefixed(school[1..], ' '), school[0])
  }

  /**
   * The registration number is the first space-separated token of the cleaned text, the name the
   * rest with its leading space, and the two put back together give the cleaned text exactly.
   */
  lemma RecordRoundTrip(text: string)
    ensures RecordOf(text).schoolNumber + RecordOf(text).schoolName == Strip(text, LineBreaks)
    ensures RecordOf(text).schoolNumber == Before(Strip(text, LineBreaks), ' ')
    ensures RecordOf(text).schoolName == "" <==> ' ' !in Strip(text, LineBreaks)
    ensures RecordOf(text).schoolName != "" ==> RecordOf(text).schoolName[0] == ' '
  {
    var clean := Strip(text, LineBreaks);
    JoinSplit(clean, ' ');
    SplitHead(clean, ' ');
  }

  /** The texts of every anchor of every `<font>`, in the order the nested loop visits them. */
  function Anchors(page: RosterPage): seq<string>
  {
    if page == [] then [] else Anchors(page[..|page| - 1]) + page[|page| - 1]
  }

  /** One record per anchor, in order. */
  function RecordsOf(texts: seq<string>): seq<SchoolRecord>
  {
    seq(|texts|, i requires 0 <= i < |texts| => RecordOf(texts[i]))
  }

  /** One record per anchor text: the `i`-th record is built from the `i`-th text. */
  lemma RecordsOfAt(texts: seq<string>, i: nat)
    requires i < |texts|
    ensures |RecordsOf(texts)| == |texts| && RecordsOf(texts)[i] == RecordOf(texts[i])
  {
  }

  lemma RecordsOfSnoc(texts: seq<string>, t: string)
    ensures RecordsOf(texts + [t]) == RecordsOf(texts) + [RecordOf(t)]
  {
  }

  lemma SnocSlice<T>(xs: seq<T>, ys: seq<T>, a: nat)
    requires a < |ys|
    ensures xs + ys[..a + 1] == xs + ys[..a] + [ys[a]]
  {
    assert ys[..a + 1] == ys[..a] + [ys[a]];
  }

  lemma AnchorsPrefix(page: RosterPage, f: nat)
    requires f < |page|
    ensures Anchors(page[..f + 1]) == Anchors(page[..f]) + page[f]
  {
    assert page[..f + 1][..f] == page[..f];
  }

  lemma SepPrefixedSlice(ts: seq<string>, s: nat)
    requires 1 <= s < |ts|
    ensures SepPrefixed(ts[1..s + 1], ' ') == SepPrefixed(ts[1..s], ' ') + " " + ts[s]
  {
    SepPrefixedSnoc(ts[1..s], ts[s], ' ');
    assert ts[1..s + 1] == ts[1..s] + [ts[s]];
  }

  /** The record the loop body builds, with the name accumulated token by token. */
  method BuildRecord(text: string) returns (record: SchoolRecord)
    ensures record == RecordOf(text)
  {
    var clean := Strip(text, LineBreaks);
    var school := Split(clean, ' ');
    var schoolName := "";
    for s := 1 to |school|
      invariant schoolName == SepPrefixed(school[1..s], ' ')
    {
      SepPrefixedSlice(school, s);
      schoolName := schoolName + " " + school[s];
    }
    assert school[1..|school|] == school[1..];
    record := SchoolRecord(schoolName, school[0]);
  }

  /** The loop that visits every anchor of every `<font>` and appends its record to `schools`. */
  method ExtractRecords(page: RosterPage) returns (schools: seq<SchoolRecord>)
    ensures schools == RecordsOf(Anchors(page))
  {
    schools := [];
    for f := 0 to |page|
      invariant schools == RecordsOf(Anchors(page[..f]))
    {
      var font := page[f];
      for a := 0 to |font|
        invariant schools == RecordsOf(Anchors(page[..f]) + font[..a])
      {
        var record := BuildRecord(font[a]);
        RecordsOfSnoc(Anchors(page[..f]) + font[..a], font[a]);
        SnocSlice(Anchors(page[..f]), font, a);
        schools := schools + [record];
      }
      assert font[..|font|] == font;
      AnchorsPrefix(page, f);
    }
    assert page[..|page|] == page;
  }

  /** `s[k:]` for `k >= 0`: the suffix after the first `k` elements, empty when there are fewer. */
  function Drop<T>(s: seq<T>, k: nat): (r: seq<T>)
    ensures |r| == if k <= |s| then |s| - k else 0
    ensures forall i :: 0 <= i < |r| ==> r[i] == s[k + i]
  {
    if k <= |s| then s[k..] else []
  }

  function Description(examType: string, year: int): string
  {
    "a list of all schools and centers that participated in " + examType + " in " + IntToString(year)
  }

  /** What `schools` returns or raises, the fetch of the roster page given as `fetch`. */
  function RosterOf(year: int, examType: string, fetch: string -> Response<RosterPage>): Result<RosterResult>
  {
    match RosterTarget(year, examType)
    case Err(e) => Err(e)
    case Ok(target) =>
      var data := fetch(target.url);
      if data.status == 200 then
        var schools := Drop(RecordsOf(Anchors(data.page)), target.skip);
        Ok(RosterResult(Lower(examType), year, |schools|, Description(Lower(examType), year), schools))
      else
        Err(RemoteFailure(target.url, data.status))
  }

  /** `schools(year, exam_type)`. */
  method Schools(year: int, examType: string, fetch: string -> Response<RosterPage>) returns (r: Result<RosterResult>)
    ensures r == RosterOf(year, examType, fetch)
  {
    var target := RosterTarget(year, examType);
    if target.Err? {
      return Err(target.error);
    }
    var data := fetch(target.value.url);
    if data.status == 200 {
      var schools := ExtractRecords(data.page);
      schools := Drop(schools, target.value.skip);
      var examType := Lower(examType);
      r := Ok(RosterResult(examType, year, |schools|, Description(examType, year), schools));
    } else {
      r := Err(RemoteFailure(target.value.url, data.status));
    }
  }

  /**
   * A roster is the anchors' records after the first `skip` of them, in page order, never cut at the
   * end; its count is its length, its exam type lower case.
   */
  lemma RosterContents(year: int, examType: string, fetch: string -> Response<RosterPage>)
    requires RosterOf(year, examType, fetch).Ok?
    ensures var res := RosterOf(year, examType, fetch).value;
            var skip := RosterTarget(year, examType).value.skip;
            var anchors := Anchors(fetch(RosterTarget(year, examType).value.url).page);
            && res.numberOfSchools == |res.schools|
            && res.examType == Lower(examType) && (res.examType == "csee" || res.examType == "acsee")
            && res.yearOfExam == year
            && |res.schools| == (if skip <= |anchors| then |anchors| - skip else 0)
            && res.schools == Drop(RecordsOf(anchors), skip)
  {
    var target := RosterTarget(year, examType).value;
    if fetch(target.url).status != 200 {
      RemoteFailureRaised(year, examType, fetch);
      assert false;
    }
    var anchors := Anchors(fetch(target.url).page);
    var records := RecordsOf(anchors);
    var schools := Drop(records, target.skip);
    RosterOfValue(year, examType, fetch, target);
  }

  /** The `i`-th school kept is the record of anchor `skip + i`. */
  lemma DroppedRecords(anchors: seq<string>, skip: nat, i: nat)
    requires i < |Drop(RecordsOf(anchors), skip)|
    ensures Drop(RecordsOf(anchors), skip)[i] == RecordOf(anchors[skip + i])
  {
  }

  /** The result for a target whose page was served. */
  lemma RosterOfValue(year: int, examType: string, fetch: string -> Response<RosterPage>, target: Target)
    requires RosterTarget(year, examType) == Ok(target) && fetch(target.url).status == 200
    ensures var schools := Drop(RecordsOf(Anchors(fetch(target.url).page)), target.skip);
            RosterOf(year, examType, fetch)
              == Ok(RosterResult(Lower(examType), year, |schools|, Description(Lower(examType), year), schools))
  {
  }

  /** An unknown exam type is refused before the page is fetched: the fetcher plays no part. */
  lemma UnknownExamTypeBeforeFetch(year: int, examType: string, f1: string -> Response<RosterPage>,
                                   f2: string -> Response<RosterPage>)
    requires Lower(examType) != "csee" && Lower(examType) != "acsee"
    ensures RosterOf(year, examType, f1) == RosterOf(year, examType, f2) == Err(UnknownExamType(Lower(examType)))
  {
  }

  /** A status other than 200 is raised with the URL and the status. */
  lemma RemoteFailureRaised(year: int, examType: string, fetch: string -> Response<RosterPage>)
    requires RosterTarget(year, examType).Ok?
    requires fetch(RosterTarget(year, examType).value.url).status != 200
    ensures RosterOf(year, examType, fetch)
         == Err(RemoteFailure(RosterTarget(year, examType).value.url, fetch(RosterTarget(year, examType).value.url).status))
  {
  }
}
