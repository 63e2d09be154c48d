/**
 * The identity of a request (`NectaBase`, `StudentsModel`): field validation, the roster page URL,
 * the number of the results table on a summary page and the per-school summary page URL.
 */
module Model {
  import opened Text
  import opened Outcome

  /** `NectaBase`: the year and exam type of a request, as validated. */
  datatype NectaBase = NectaBase(year: int, examType: string)

  /** `StudentsModel`: a `NectaBase` with the registration number of a school or centre. */
  datatype StudentsModel = StudentsModel(year: int, examType: string, schoolNumber: string)

  const OnlinesysRoot := "https://onlinesys.necta.go.tz/results/"
  const MatokeoRoot := "https://matokeo.necta.go.tz/results/"
  const MaktabaRoot := "https://maktaba.tetea.org/exam-results/ACSEE"

  // ---------------------------------------------------------------- validators

  /** The `year` validator: `int(value)`, refused below 2005. */
  function ValidateYear(year: int): (r: Option<int>)
    ensures r.Some? <==> year >= 2005
    ensures r.Some? ==> r.value == year
  {
    if year < 2005 then None else Some(year)
  }

  predicate IsExamType(s: string)
  {
    Lower(s) == "acsee" || Lower(s) == "csee"
  }

  /** The `exam_type` validator: accepted in any letter case and returned without normalisation. */
  function ValidateExamType(s: string): (r: Option<string>)
    ensures r.Some? <==> IsExamType(s)
    ensures r.Some? ==> r.value == s
  {
    if Lower(s) != "acsee" && Lower(s) != "csee" then None else Some(s)
  }

  /** A registration number: `s`, `S`, `p` or `P` and four decimal digits, nothing else. */
  predicate IsSchoolNumber(s: string)
  {
    |s| == 5 && s[0] in {'s', 'S', 'p', 'P'} && forall i :: 1 <= i < 5 ==> IsDigit(s[i])
  }

  /**
   * The `school_number` validator as written: `re.match` with `^[sS][0-9]{4}$|^[pP][0-9]{4}$`.
   * Python's `$` also matches just before a final newline, so one trailing "\n" gets through.
   */
  function ValidateSchoolNumberAsWritten(s: string): (r: Option<string>)
    ensures r.Some? <==> IsSchoolNumber(s) || (|s| == 6 && s[5] == '\n' && IsSchoolNumber(s[..5]))
    ensures r.Some? ==> r.value == s
  {
    var body := if |s| > 0 && s[|s| - 1] == '\n' then s[..|s| - 1] else s;
    if IsSchoolNumber(s) || IsSchoolNumber(body) then Some(s) else None
  }

  /** The `school_number` validator as intended: the whole value is a registration number. */
  function ValidateSchoolNumber(s: string): (r: Option<string>)
    ensures r.Some? ==> |r.value| == 5 && r.value == s
    ensures r.Some? <==> IsSchoolNumber(s)
  {
    if IsSchoolNumber(s) then Some(s) else None
  }

  /** The fields whose validators refuse, in declaration order, as pydantic reports them together. */
  function FailedFields(y: Option<int>, e: Option<string>, n: Option<string>): seq<Field>
  {
    (if y.None? then [Year] else []) + (if e.None? then [ExamType] else []) + (if n.None? then [SchoolNumber] else [])
  }

  /** Constructing a `NectaBase`: both validators run, every failure is reported. */
  function MakeNectaBase(year: int, examType: string): (r: Result<NectaBase>)
    ensures r.Ok? <==> year >= 2005 && IsExamType(examType)
    ensures r.Ok? ==> r.value == NectaBase(year, examType)
    ensures r.Err? ==> (r.error.ValidationFailed?
                         && (Year in r.error.fields <==> year < 2005)
                         && (ExamType in r.error.fields <==> !IsExamType(examType))
                         && SchoolNumber !in r.error.fields)
  {
    var y := ValidateYear(year);
    var e := ValidateExamType(examType);
    var failed := FailedFields(y, e, Some(""));
    if failed == [] then Ok(NectaBase(y.value, e.value)) else Err(ValidationFailed(failed))
  }

  /** Constructing a `StudentsModel`: the three validators run, every failure is reported. */
  function MakeStudentsModel(year: int, examType: string, schoolNumber: string): (r: Result<StudentsModel>)
    ensures r.Ok? <==> year >= 2005 && IsExamType(examType) && IsSchoolNumber(schoolNumber)
    ensures r.Ok? ==> r.value == StudentsModel(year, examType, schoolNumber)
    ensures r.Err? ==> (r.error.ValidationFailed?
                         && (Year in r.error.fields <==> year < 2005)
                         && (ExamType in r.error.fields <==> !IsExamType(examType))
                         && (SchoolNumber in r.error.fields <==> !IsSchoolNumber(schoolNumber)))
  {
    var y := ValidateYear(year);
    var e := ValidateExamType(examType);
    var n := ValidateSchoolNumber(schoolNumber);
    var failed := FailedFields(y, e, n);
    if failed == [] then Ok(StudentsModel(y.value, e.value, n.value)) else Err(ValidationFailed(failed))
  }

  /** As written, "s1234\n" passes the registration-number check; as intended it does not. */
  lemma SchoolNumberTrailingNewline()
    ensures ValidateSchoolNumberAsWritten("s1234\n") == Some("s1234\n")
    ensures ValidateSchoolNumber("s1234\n") == None
    ensures ValidateSchoolNumber("s1234") == Some("s1234")
  {
    assert "s1234\n"[..5] == "s1234";
  }

  // ---------------------------------------------------------------- roster page URL

  /** `get_school_url`: the page listing every school and centre of a year and exam type. */
  function GetSchoolUrl(b: NectaBase): (r: Result<string>)
    ensures r.Err? <==> b.examType != "csee" && b.examType != "acsee"
    ensures r.Err? ==> r.error == UnknownExamType(b.examType)
  {
    var year := b.year;
    if b.examType == "csee" then
      if year == 2022 then Ok("https://onlinesys.necta.go.tz/results/2022/csee/index.htm")
      else if year == 2016 then Ok("https://onlinesys.necta.go.tz/results/" + IntToString(year) + "/csee/index.htm")
      else Ok("https://onlinesys.necta.go.tz/results/" + IntToString(year) + "/csee/csee.htm")
    else if b.examType == "acsee" then
      if year == 2023 then Ok("https://matokeo.necta.go.tz/results/2023/acsee/index.htm")
      else if year > 2019 then Ok("https://onlinesys.necta.go.tz/results/" + IntToString(year) + "/acsee/index.htm")
      else if year == 2014 then Ok("https://onlinesys.necta.go.tz/results/2014/acsee/")
      else Ok("https://onlinesys.necta.go.tz/results/" + IntToString(year) + "/acsee/acsee.htm")
    else
      Err(UnknownExamType(b.examType))
  }

  /** A validated exam type reaches a roster URL exactly when it is already lower case. */
  lemma SchoolUrlNeedsLowerCase(b: NectaBase)
    requires IsExamType(b.examType)
    ensures GetSchoolUrl(b).Ok? <==> Lower(b.examType) == b.examType
  {
    assert Lower("csee") == "csee";
    assert Lower("acsee") == "acsee";
  }

  // ---------------------------------------------------------------- reading a URL back

  /** The year a NECTA or archive results URL is filed under: the path segment after the site's root. */
  function UrlYear(url: string): Option<int>
  {
    if OnlinesysRoot <= url then Some(ParseInt(Before(url[|OnlinesysRoot|..], '/')))
    else if MatokeoRoot <= url then Some(ParseInt(Before(url[|MatokeoRoot|..], '/')))
    else if MaktabaRoot <= url then Some(ParseInt(Before(url[|MaktabaRoot|..], '/')))
    else None
  }

  /** The text after a root is the year's digits, up to the slash that opens the rest. */
  lemma YearSegment(root: string, year: int, rest: string)
    requires rest != [] && rest[0] == '/'
    ensures root <= root + IntToString(year) + rest
    ensures ParseInt(Before((root + IntToString(year) + rest)[|root|..], '/')) == year
  {
    var y := IntToString(year);
    var u := root + y + rest;
    assert u[|root|..] == y + rest;
    IntToStringFree(year, '/');
    BeforeSep(y, rest, '/');
    ParseIntToString(year);
  }

  /** A text is not a prefix of one it differs from at some position. */
  lemma NotPrefixAt(p: string, u: string, k: nat)
    requires k < |p| && k < |u| && p[k] != u[k]
    ensures !(p <= u)
  {
  }

  /** A URL under one of the three roots is read from after that root, and only one root matches. */
  lemma UrlUnderRoot(u: string, root: string)
    requires root in {OnlinesysRoot, MatokeoRoot, MaktabaRoot} && root <= u
    ensures UrlYear(u) == Some(ParseInt(Before(u[|root|..], '/')))
    ensures MatokeoRoot <= u <==> root == MatokeoRoot
  {
    assert u[10] == root[10];
    assert OnlinesysRoot[10] == 'l' && MatokeoRoot[10] == 't' && MaktabaRoot[10] == 'k';
    if root != OnlinesysRoot {
      NotPrefixAt(OnlinesysRoot, u, 10);
    }
    if root != MatokeoRoot {
      NotPrefixAt(MatokeoRoot, u, 10);
    }
  }

  /** A URL under one of the three roots is under that root only. */
  lemma HostOf(u: string, root: string)
    requires root in {OnlinesysRoot, MatokeoRoot, MaktabaRoot} && root <= u
    ensures OnlinesysRoot <= u <==> root == OnlinesysRoot
    ensures MatokeoRoot <= u <==> root == MatokeoRoot
    ensures MaktabaRoot <= u <==> root == MaktabaRoot
  {
    assert u[10] == root[10];
    assert OnlinesysRoot[10] == 'l' && MatokeoRoot[10] == 't' && MaktabaRoot[10] == 'k';
    if root != OnlinesysRoot {
      NotPrefixAt(OnlinesysRoot, u, 10);
    }
    if root != MatokeoRoot {
      NotPrefixAt(MatokeoRoot, u, 10);
    }
    if root != MaktabaRoot {
      NotPrefixAt(MaktabaRoot, u, 10);
    }
  }

  lemma Under(root: string, y: string, rest: string)
    ensures root <= root + y + rest
  {
    assert (root + y + rest)[..|root|] == root;
  }

  /** The last path segment of `p + rest`, when `rest` is `dir + "/" + file`, is the file. */
  lemma LastSegment(p: string, rest: string, dir: string, file: string)
    requires rest == dir + "/" + file && '/' !in file
    ensures AfterLast(p + rest, '/') == file
  {
    assert p + rest == (p + dir) + ['/'] + file;
    AfterLastSep(p + dir, file, '/');
  }

  /** `root + str(year) + rest` is filed under `year` when `rest` opens a new path segment. */
  lemma RootedYear(root: string, year: int, rest: string)
    requires root in {OnlinesysRoot, MatokeoRoot, MaktabaRoot}
    requires rest != [] && rest[0] == '/'
    ensures UrlYear(root + IntToString(year) + rest) == Some(year)
    ensures MatokeoRoot <= root + IntToString(year) + rest <==> root == MatokeoRoot
  {
    YearSegment(root, year, rest);
    UrlUnderRoot(root + IntToString(year) + rest, root);
  }

  lemma Csee2022Url()
    ensures "https://onlinesys.necta.go.tz/results/2022/csee/index.htm" == OnlinesysRoot + IntToString(2022) + "/csee/index.htm"
  {
    assert IntToString(2022) == "2022";
  }

  lemma Acsee2023Url()
    ensures "https://matokeo.necta.go.tz/results/2023/acsee/index.htm" == MatokeoRoot + IntToString(2023) + "/acsee/index.htm"
  {
    assert IntToString(2023) == "2023";
  }

  lemma Acsee2014Url()
    ensures "https://onlinesys.necta.go.tz/results/2014/acsee/" == OnlinesysRoot + IntToString(2014) + "/acsee/"
  {
    assert IntToString(2014) == "2014";
  }

  lemma CseeSchoolUrlYear(year: int)
    ensures UrlYear(GetSchoolUrl(NectaBase(year, "csee")).value) == Some(year)
    ensures !(MatokeoRoot <= GetSchoolUrl(NectaBase(year, "csee")).value)
  {
    if year == 2022 {
      Csee2022Url();
      RootedYear(OnlinesysRoot, 2022, "/csee/index.htm");
    } else if year == 2016 {
      RootedYear(OnlinesysRoot, year, "/csee/index.htm");
    } else {
      RootedYear(OnlinesysRoot, year, "/csee/csee.htm");
    }
  }

  lemma AcseeSchoolUrlYear(year: int)
    ensures UrlYear(GetSchoolUrl(NectaBase(year, "acsee")).value) == Some(year)
    ensures MatokeoRoot <= GetSchoolUrl(NectaBase(year, "acsee")).value <==> year == 2023
  {
    if year == 2023 {
      Acsee2023Url();
      RootedYear(MatokeoRoot, 2023, "/acsee/index.htm");
    } else if year > 2019 {
      RootedYear(OnlinesysRoot, year, "/acsee/index.htm");
    } else if year == 2014 {
      Acsee2014Url();
      RootedYear(OnlinesysRoot, 2014, "/acsee/");
    } else {
      RootedYear(OnlinesysRoot, year, "/acsee/acsee.htm");
    }
  }

  /**
   * Every roster URL is filed under the requested year, the fixed overrides included, and only
   * ACSEE 2023 lives on the `matokeo` host.
   */
  lemma SchoolUrlYear(b: NectaBase)
    requires GetSchoolUrl(b).Ok?
    ensures UrlYear(GetSchoolUrl(b).value) == Some(b.year)
    ensures MatokeoRoot <= GetSchoolUrl(b).value <==> b.examType == "acsee" && b.year == 2023
  {
    if b.examType == "csee" {
      CseeSchoolUrlYear(b.year);
    } else {
      AcseeSchoolUrlYear(b.year);
    }
  }

  /** Two requests that share a roster URL ask for the same year. */
  lemma SchoolUrlInjective(b1: NectaBase, b2: NectaBase)
    requires GetSchoolUrl(b1).Ok? && GetSchoolUrl(b1) == GetSchoolUrl(b2)
    ensures b1.year == b2.year
  {
    SchoolUrlYear(b1);
    SchoolUrlYear(b2);
  }

  /** `root + y + dir + "/" + file` names the page `file` and is under `root` only. */
  lemma RootedRosterPage(root: string, y: string, rest: string, dir: string, file: string)
    requires root in {OnlinesysRoot, MatokeoRoot, MaktabaRoot}
    requires rest == dir + "/" + file && '/' !in file
    ensures AfterLast(root + y + rest, '/') == file
    ensures OnlinesysRoot <= root + y + rest <==> root == OnlinesysRoot
  {
    LastSegment(root + y, rest, dir, file);
    Under(root, y, rest);
    HostOf(root + y + rest, root);
  }

  /**
   * `root + y + rest`, when `root` ends in a slash and `rest` is `/e/page`, ends in the path
   * `/y/e/page`: the year, the exam-type directory and the page.
   */
  lemma RosterSuffix(root: string, h: string, y: string, rest: string, e: string, page: string)
    requires root == h + "/" && rest == "/" + e + "/" + page
    ensures EndsWith(root + y + rest, "/" + y + "/" + e + "/" + page)
  {
    assert root + y + rest == h + ("/" + y + "/" + e + "/" + page);
    EndsWithConcat(h, "/" + y + "/" + e + "/" + page);
  }

  /** The two roster hosts, cut before the slash that opens the year segment. */
  lemma RosterRoots()
    ensures OnlinesysRoot == "https://onlinesys.necta.go.tz/results" + "/"
    ensures MatokeoRoot == "https://matokeo.necta.go.tz/results" + "/"
  {
  }

  /** The roster paths cut at their last slash. */
  lemma RosterPaths()
    ensures "/csee/index.htm" == "/csee" + "/" + "index.htm" && '/' !in "index.htm"
    ensures "/csee/csee.htm" == "/csee" + "/" + "csee.htm" && '/' !in "csee.htm"
    ensures "/acsee/index.htm" == "/acsee" + "/" + "index.htm"
    ensures "/acsee/acsee.htm" == "/acsee" + "/" + "acsee.htm" && '/' !in "acsee.htm"
    ensures "/acsee/" == "/acsee" + "/" + ""
  {
  }

  /** The roster paths cut into the exam-type directory and the page. */
  lemma CseeDirectories()
    ensures "/csee/index.htm" == "/" + "csee" + "/" + "index.htm"
    ensures "/csee/csee.htm" == "/" + "csee" + "/" + "csee.htm"
  {
  }

  lemma AcseeDirectories()
    ensures "/acsee/index.htm" == "/" + "acsee" + "/" + "index.htm"
    ensures "/acsee/acsee.htm" == "/" + "acsee" + "/" + "acsee.htm"
    ensures "/acsee/" == "/" + "acsee" + "/" + ""
  {
  }

  lemma CseeRosterPage(year: int)
    ensures var page := if year == 2022 || year == 2016 then "index.htm" else "csee.htm";
            && AfterLast(GetSchoolUrl(NectaBase(year, "csee")).value, '/') == page
            && EndsWith(GetSchoolUrl(NectaBase(year, "csee")).value, "/" + IntToString(year) + "/" + "csee" + "/" + page)
    ensures OnlinesysRoot <= GetSchoolUrl(NectaBase(year, "csee")).value
  {
    RosterPaths();
    CseeDirectories();
    RosterRoots();
    var h := "https://onlinesys.necta.go.tz/results";
    var y := IntToString(year);
    if year == 2022 {
      Csee2022Url();
      RootedRosterPage(OnlinesysRoot, y, "/csee/index.htm", "/csee", "index.htm");
      RosterSuffix(OnlinesysRoot, h, y, "/csee/index.htm", "csee", "index.htm");
    } else if year == 2016 {
      RootedRosterPage(OnlinesysRoot, y, "/csee/index.htm", "/csee", "index.htm");
      RosterSuffix(OnlinesysRoot, h, y, "/csee/index.htm", "csee", "index.htm");
    } else {
      RootedRosterPage(OnlinesysRoot, y, "/csee/csee.htm", "/csee", "csee.htm");
      RosterSuffix(OnlinesysRoot, h, y, "/csee/csee.htm", "csee", "csee.htm");
    }
  }

  /** ACSEE roster pages from 2020 on, the 2023 host override included. */
  lemma AcseeRecentRosterPage(year: int)
    requires year > 2019
    ensures AfterLast(GetSchoolUrl(NectaBase(year, "acsee")).value, '/') == "index.htm"
    ensures EndsWith(GetSchoolUrl(NectaBase(year, "acsee")).value, "/" + IntToString(year) + "/" + "acsee" + "/" + "index.htm")
    ensures OnlinesysRoot <= GetSchoolUrl(NectaBase(year, "acsee")).value <==> year != 2023
  {
    RosterPaths();
    AcseeDirectories();
    RosterRoots();
    var y := IntToString(year);
    if year == 2023 {
      Acsee2023Url();
      RootedRosterPage(MatokeoRoot, y, "/acsee/index.htm", "/acsee", "index.htm");
      RosterSuffix(MatokeoRoot, "https://matokeo.necta.go.tz/results", y, "/acsee/index.htm", "acsee", "index.htm");
    } else {
      RootedRosterPage(OnlinesysRoot, y, "/acsee/index.htm", "/acsee", "index.htm");
      RosterSuffix(OnlinesysRoot, "https://onlinesys.necta.go.tz/results", y, "/acsee/index.htm", "acsee", "index.htm");
    }
  }

  /** The ACSEE 2014 roster is the bare `acsee/` directory. */
  lemma Acsee2014RosterPage()
    ensures AfterLast(GetSchoolUrl(NectaBase(2014, "acsee")).value, '/') == ""
    ensures EndsWith(GetSchoolUrl(NectaBase(2014, "acsee")).value, "/" + IntToString(2014) + "/" + "acsee" + "/" + "")
    ensures OnlinesysRoot <= GetSchoolUrl(NectaBase(2014, "acsee")).value
  {
    RosterPaths();
    AcseeDirectories();
    RosterRoots();
    Acsee2014Url();
    RootedRosterPage(OnlinesysRoot, IntToString(2014), "/acsee/", "/acsee", "");
    RosterSuffix(OnlinesysRoot, "https://onlinesys.necta.go.tz/results", IntToString(2014), "/acsee/", "acsee", "");
  }

  /** The other ACSEE roster pages up to 2019 are `acsee.htm`. */
  lemma AcseeEarlyRosterPage(year: int)
    requires year <= 2019 && year != 2014
    ensures AfterLast(GetSchoolUrl(NectaBase(year, "acsee")).value, '/') == "acsee.htm"
    ensures EndsWith(GetSchoolUrl(NectaBase(year, "acsee")).value, "/" + IntToString(year) + "/" + "acsee" + "/" + "acsee.htm")
    ensures OnlinesysRoot <= GetSchoolUrl(NectaBase(year, "acsee")).value
  {
    RosterPaths();
    AcseeDirectories();
    RosterRoots();
    var y := IntToString(year);
    RootedRosterPage(OnlinesysRoot, y, "/acsee/acsee.htm", "/acsee", "acsee.htm");
    RosterSuffix(OnlinesysRoot, "https://onlinesys.necta.go.tz/results", y, "/acsee/acsee.htm", "acsee", "acsee.htm");
  }

  lemma AcseeRosterPage(year: int)
    ensures var page := if year == 2023 || year > 2019 then "index.htm" else if year == 2014 then "" else "acsee.htm";
            && AfterLast(GetSchoolUrl(NectaBase(year, "acsee")).value, '/') == page
            && EndsWith(GetSchoolUrl(NectaBase(year, "acsee")).value, "/" + IntToString(year) + "/" + "acsee" + "/" + page)
    ensures OnlinesysRoot <= GetSchoolUrl(NectaBase(year, "acsee")).value <==> year != 2023
  {
    if year > 2019 {
      AcseeRecentRosterPage(year);
    } else if year == 2014 {
      Acsee2014RosterPage();
    } else {
      AcseeEarlyRosterPage(year);
    }
  }

  /**
   * The page each roster URL names: `index.htm` for CSEE 2016 and 2022 and for ACSEE from 2020,
   * the bare `acsee/` directory for ACSEE 2014 and `csee.htm` or `acsee.htm` otherwise. The path
   * ends in the requested year and the exam type's own directory, the fixed overrides included;
   * every roster URL but ACSEE 2023's is on the `onlinesys` host.
   */
  lemma RosterPageName(b: NectaBase)
    requires GetSchoolUrl(b).Ok?
    ensures var page :=
              if b.examType == "csee" then (if b.year == 2022 || b.year == 2016 then "index.htm" else "csee.htm")
              else if b.year == 2023 || b.year > 2019 then "index.htm"
              else if b.year == 2014 then ""
              else "acsee.htm";
            && AfterLast(GetSchoolUrl(b).value, '/') == page
            && EndsWith(GetSchoolUrl(b).value, "/" + IntToString(b.year) + "/" + b.examType + "/" + page)
    ensures OnlinesysRoot <= GetSchoolUrl(b).value <==> !(b.examType == "acsee" && b.year == 2023)
  {
    if b.examType == "csee" {
      CseeRosterPage(b.year);
    } else {
      AcseeRosterPage(b.year);
    }
  }

  // ---------------------------------------------------------------- table index

  /** The last year of the page template with a single results table. */
  function LayoutThreshold(examType: string): int
  {
    if examType == "csee" then 2019 else 2018
  }

  /** `StudentsModel.index`: which table of a summary page holds the per-student results. */
  function Index(m: StudentsModel): (r: nat)
    ensures r <= 2
    ensures r == 0 <==> m.year <= LayoutThreshold(m.examType)
    ensures m.examType == "csee" && r != 0 ==>
              (r == 1 <==> |m.schoolNumber| > 0 && LowerChar(m.schoolNumber[0]) == 'p')
    ensures m.examType != "csee" && r != 0 ==>
              (r == 1 <==> |m.schoolNumber| > 0 && m.schoolNumber[0] == 'p')
  {
    if m.examType == "csee" then
      if StartsWith(Lower(m.schoolNumber), "p") then (if m.year > 2019 then 1 else 0)
      else (if m.year > 2019 then 2 else 0)
    else
      if StartsWith(m.schoolNumber, "p") then (if m.year > 2018 then 1 else 0)
      else (if m.year > 2018 then 2 else 0)
  }

  /**
   * The prefix test is case-insensitive for CSEE only: under ACSEE (and under any other spelling of
   * the exam type) a centre number with a capital `P` gets the school table.
   */
  lemma IndexPrefixCase(year: int)
    requires year > 2019
    ensures Index(StudentsModel(year, "csee", "P1234")) == 1
    ensures Index(StudentsModel(year, "csee", "p1234")) == 1
    ensures Index(StudentsModel(year, "acsee", "p1234")) == 1
    ensures Index(StudentsModel(year, "acsee", "P1234")) == 2
    ensures Index(StudentsModel(year, "csee", "S1234")) == 2
  {
  }

  /** For CSEE the table does not depend on the letter case of the registration number. */
  lemma CseeIndexIgnoresCase(m: StudentsModel)
    requires m.examType == "csee"
    ensures Index(m) == Index(StudentsModel(m.year, m.examType, Lower(m.schoolNumber)))
  {
    var n := Lower(m.schoolNumber);
    assert StartsWith(Lower(n), "p") <==> StartsWith(Lower(m.schoolNumber), "p") by {
      if |n| > 0 { assert Lower(n)[0] == LowerChar(n[0]) == n[0]; }
    }
  }

  // ---------------------------------------------------------------- summary page URL

  /** ACSEE results of 2006 to 2014, except 2008, are read from the tetea archive. */
  predicate IsArchived(m: StudentsModel)
  {
    m.examType == "acsee" && m.year < 2015 && m.year > 2005 && m.year != 2008
  }

  /** `get_summary_url`: the page of one school's results, or `None` where no page exists. */
  function GetSummaryUrl(m: StudentsModel): (r: Option<string>)
    ensures r.None? <==> m.examType == "acsee" && (m.year == 2008 || m.year <= 2005 || m.year >= 2024)
    ensures m.examType != "acsee" && m.examType != "csee" ==> r == Some("")
  {
    var year := m.year;
    var sn := m.schoolNumber;
    if m.examType == "acsee" then
      if year == 2023 then Some("https://matokeo.necta.go.tz/results/2023/acsee/results/" + sn + ".htm")
      else if year > 2014 && year < 2023 then
        Some("https://onlinesys.necta.go.tz/results/" + IntToString(year) + "/acsee/results/" + sn + ".htm")
      else if year < 2015 && year > 2005 && year != 2008 then
        Some("https://maktaba.tetea.org/exam-results/" + Upper(m.examType) + IntToString(year) + "/" + sn + ".html")
      else None
    else if m.examType == "csee" then
      if year > 2014 then Some("https://onlinesys.necta.go.tz/results/" + IntToString(year) + "/csee/results/" + sn + ".htm")
      else Some("https://onlinesys.necta.go.tz/results/" + IntToString(year) + "/csee/" + sn + ".htm")
    else
      Some("")
  }

  lemma FileFree(sn: string, ext: string)
    requires '/' !in sn && '/' !in ext
    ensures '/' !in sn + ext
  {
    assert forall i :: 0 <= i < |sn + ext| ==> (sn + ext)[i] == if i < |sn| then sn[i] else ext[i - |sn|];
  }

  lemma Regroup(a: string, b: string, c: string, d: string)
    ensures a + b + c + d == a + (b + c + d)
  {
  }

  /** The last path segment of `p + dir + file + ext`, `dir` ending in a slash, is the file. */
  lemma PageFile(p: string, dir: string, sn: string, ext: string)
    requires |dir| > 0 && dir[|dir| - 1] == '/'
    requires '/' !in sn && '/' !in ext
    ensures AfterLast(p + dir + sn + ext, '/') == sn + ext
  {
    var d := dir[..|dir| - 1];
    assert p + dir + sn + ext == (p + d) + ['/'] + (sn + ext);
    FileFree(sn, ext);
    AfterLastSep(p + d, sn + ext, '/');
  }

  /** `root + str(year) + dir + file + ext`, `dir` a path of directories, reads back the year and the file. */
  lemma RootedPage(root: string, year: int, dir: string, sn: string, ext: string)
    requires root in {OnlinesysRoot, MatokeoRoot, MaktabaRoot}
    requires |dir| > 0 && dir[0] == '/' && dir[|dir| - 1] == '/'
    requires '/' !in sn && '/' !in ext
    ensures UrlYear(root + IntToString(year) + dir + sn + ext) == Some(year)
    ensures AfterLast(root + IntToString(year) + dir + sn + ext, '/') == sn + ext
  {
    var p := root + IntToString(year);
    Regroup(p, dir, sn, ext);
    RootedYear(root, year, dir + sn + ext);
    PageFile(p, dir, sn, ext);
  }

  lemma Acsee2023Page(sn: string)
    ensures "https://matokeo.necta.go.tz/results/2023/acsee/results/" + sn + ".htm"
         == MatokeoRoot + IntToString(2023) + "/acsee/results/" + sn + ".htm"
  {
    assert IntToString(2023) == "2023";
    assert "https://matokeo.necta.go.tz/results/2023/acsee/results/" == MatokeoRoot + "2023" + "/acsee/results/";
  }

  lemma ArchivePage(year: int, sn: string)
    ensures "https://maktaba.tetea.org/exam-results/" + Upper("acsee") + IntToString(year) + "/" + sn + ".html"
         == MaktabaRoot + IntToString(year) + "/" + sn + ".html"
  {
    assert Upper("acsee") == "ACSEE";
    assert "https://maktaba.tetea.org/exam-results/" + "ACSEE" == MaktabaRoot;
  }

  lemma AcseeSummaryUrlReadsBack(m: StudentsModel)
    requires m.examType == "acsee" && GetSummaryUrl(m).Some? && '/' !in m.schoolNumber
    ensures UrlYear(GetSummaryUrl(m).value) == Some(m.year)
    ensures AfterLast(GetSummaryUrl(m).value, '/') == m.schoolNumber + (if IsArchived(m) then ".html" else ".htm")
  {
    var sn := m.schoolNumber;
    if m.year == 2023 {
      Acsee2023Page(sn);
      RootedPage(MatokeoRoot, 2023, "/acsee/results/", sn, ".htm");
    } else if m.year > 2014 {
      RootedPage(OnlinesysRoot, m.year, "/acsee/results/", sn, ".htm");
    } else {
      ArchivePage(m.year, sn);
      RootedPage(MaktabaRoot, m.year, "/", sn, ".html");
    }
  }

  lemma CseeSummaryUrlReadsBack(m: StudentsModel)
    requires m.examType == "csee" && '/' !in m.schoolNumber
    ensures UrlYear(GetSummaryUrl(m).value) == Some(m.year)
    ensures AfterLast(GetSummaryUrl(m).value, '/') == m.schoolNumber + ".htm"
  {
    if m.year > 2014 {
      RootedPage(OnlinesysRoot, m.year, "/csee/results/", m.schoolNumber, ".htm");
    } else {
      RootedPage(OnlinesysRoot, m.year, "/csee/", m.schoolNumber, ".htm");
    }
  }

  /**
   * A summary URL is filed under the requested year and its last path segment is the registration
   * number with the page extension (`.html` on the archive, `.htm` elsewhere).
   */
  lemma SummaryUrlReadsBack(m: StudentsModel)
    requires GetSummaryUrl(m).Some? && (m.examType == "acsee" || m.examType == "csee")
    requires '/' !in m.schoolNumber
    ensures UrlYear(GetSummaryUrl(m).value) == Some(m.year)
    ensures AfterLast(GetSummaryUrl(m).value, '/') == m.schoolNumber + (if IsArchived(m) then ".html" else ".htm")
  {
    if m.examType == "acsee" {
      AcseeSummaryUrlReadsBack(m);
    } else {
      CseeSummaryUrlReadsBack(m);
    }
  }

  /** Two validated requests that share a summary URL name the same year and registration number. */
  lemma SummaryUrlInjective(m1: StudentsModel, m2: StudentsModel)
    requires IsSchoolNumber(m1.schoolNumber) && IsSchoolNumber(m2.schoolNumber)
    requires m1.examType in {"acsee", "csee"} && m2.examType in {"acsee", "csee"}
    requires GetSummaryUrl(m1).Some? && GetSummaryUrl(m1) == GetSummaryUrl(m2)
    ensures m1.year == m2.year && m1.schoolNumber == m2.schoolNumber
  {
    assert forall s :: IsSchoolNumber(s) ==> '/' !in s by {
      forall s | IsSchoolNumber(s) ensures '/' !in s {
        assert forall i :: 0 <= i < |s| ==> s[i] != '/' by {
          forall i | 0 <= i < |s| ensures s[i] != '/' { if i > 0 { assert IsDigit(s[i]); } }
        }
      }
    }
    SummaryUrlReadsBack(m1);
    SummaryUrlReadsBack(m2);
    var f1 := m1.schoolNumber + (if IsArchived(m1) then ".html" else ".htm");
    var f2 := m2.schoolNumber + (if IsArchived(m2) then ".html" else ".htm");
    assert f1 == f2;
    assert f1[|f1| - 1] == (if IsArchived(m1) then 'l' else 'm');
    assert f2[|f2| - 1] == (if IsArchived(m2) then 'l' else 'm');
    assert m1.schoolNumber == f1[..5] && m2.schoolNumber == f2[..5];
  }

  lemma AcseeSummaryHost(m: StudentsModel)
    requires m.examType == "acsee" && GetSummaryUrl(m).Some?
    ensures m.year == 2023 ==> MatokeoRoot <= GetSummaryUrl(m).value
    ensures IsArchived(m) ==> MaktabaRoot <= GetSummaryUrl(m).value
    ensures m.year != 2023 && !IsArchived(m) ==> OnlinesysRoot <= GetSummaryUrl(m).value
  {
    var y, sn := IntToString(m.year), m.schoolNumber;
    if m.year == 2023 {
      Acsee2023Page(sn);
      Regroup(MatokeoRoot, y, "/acsee/results/" + sn, ".htm");
      Under(MatokeoRoot, y, "/acsee/results/" + sn + ".htm");
    } else if m.year > 2014 {
      Regroup(OnlinesysRoot, y, "/acsee/results/" + sn, ".htm");
      Under(OnlinesysRoot, y, "/acsee/results/" + sn + ".htm");
    } else {
      ArchivePage(m.year, sn);
      Regroup(MaktabaRoot, y, "/" + sn, ".html");
      Under(MaktabaRoot, y, "/" + sn + ".html");
    }
  }

  lemma CseeSummaryHost(m: StudentsModel)
    requires m.examType == "csee"
    ensures OnlinesysRoot <= GetSummaryUrl(m).value
  {
    var y, sn := IntToString(m.year), m.schoolNumber;
    if m.year > 2014 {
      Regroup(OnlinesysRoot, y, "/csee/results/" + sn, ".htm");
      Under(OnlinesysRoot, y, "/csee/results/" + sn + ".htm");
    } else {
      Regroup(OnlinesysRoot, y, "/csee/" + sn, ".htm");
      Under(OnlinesysRoot, y, "/csee/" + sn + ".htm");
    }
  }

  /** Every URL under one of the roots names the `https:` scheme. */
  lemma RootScheme(u: string, root: string)
    requires root in {OnlinesysRoot, MatokeoRoot, MaktabaRoot} && root <= u
    ensures "https:" <= u && ':' in u
  {
    assert root[0] == 'h' && root[1] == 't' && root[2] == 't' && root[3] == 'p' && root[4] == 's' && root[5] == ':';
    assert u[..|root|] == root;
    assert u[..6] == "https:" by {
      assert forall k :: 0 <= k < 6 ==> u[k] == root[k];
    }
    assert u[5] == ':';
  }

  /** The root a summary URL starts with. */
  function SummaryRoot(m: StudentsModel): string
  {
    if m.examType == "acsee" && m.year == 2023 then MatokeoRoot
    else if IsArchived(m) then MaktabaRoot
    else OnlinesysRoot
  }

  /**
   * The host of a summary URL: `matokeo` for ACSEE 2023, the tetea archive for the archived ACSEE
   * years, `onlinesys` for every other page; no URL is under two of them.
   */
  lemma SummaryUrlHost(m: StudentsModel)
    requires (m.examType == "acsee" || m.examType == "csee") && GetSummaryUrl(m).Some?
    ensures SummaryRoot(m) <= GetSummaryUrl(m).value
    ensures MatokeoRoot <= GetSummaryUrl(m).value <==> m.examType == "acsee" && m.year == 2023
    ensures MaktabaRoot <= GetSummaryUrl(m).value <==> IsArchived(m)
    ensures OnlinesysRoot <= GetSummaryUrl(m).value <==> !(m.examType == "acsee" && m.year == 2023) && !IsArchived(m)
  {
    if m.examType == "acsee" {
      AcseeSummaryHost(m);
    } else {
      CseeSummaryHost(m);
    }
    HostOf(GetSummaryUrl(m).value, SummaryRoot(m));
  }

  lemma SuffixFrom(p: string, d: string, sn: string, e: string)
    ensures EndsWith(p + d + sn + e, d + sn + e)
  {
    Regroup(p, d, sn, e);
    EndsWithConcat(p, d + sn + e);
  }

  lemma AcseeSummaryDirectory(m: StudentsModel)
    requires m.examType == "acsee" && GetSummaryUrl(m).Some?
    ensures !IsArchived(m) ==> EndsWith(GetSummaryUrl(m).value, "/acsee/results/" + m.schoolNumber + ".htm")
    ensures IsArchived(m) ==> EndsWith(GetSummaryUrl(m).value, "ACSEE" + IntToString(m.year) + "/" + m.schoolNumber + ".html")
  {
    var y, sn := IntToString(m.year), m.schoolNumber;
    if m.year == 2023 {
      Acsee2023Page(sn);
      SuffixFrom(MatokeoRoot + y, "/acsee/results/", sn, ".htm");
    } else if m.year > 2014 {
      SuffixFrom(OnlinesysRoot + y, "/acsee/results/", sn, ".htm");
    } else {
      assert Upper("acsee") == "ACSEE";
      SuffixFrom("https://maktaba.tetea.org/exam-results/", "ACSEE" + y + "/", sn, ".html");
    }
  }

  lemma CseeSummaryDirectory(m: StudentsModel)
    requires m.examType == "csee"
    ensures m.year > 2014 ==> EndsWith(GetSummaryUrl(m).value, "/csee/results/" + m.schoolNumber + ".htm")
    ensures m.year <= 2014 ==> EndsWith(GetSummaryUrl(m).value, "/csee/" + m.schoolNumber + ".htm")
  {
    var y := IntToString(m.year);
    if m.year > 2014 {
      SuffixFrom(OnlinesysRoot + y, "/csee/results/", m.schoolNumber, ".htm");
    } else {
      SuffixFrom(OnlinesysRoot + y, "/csee/", m.schoolNumber, ".htm");
    }
  }

  /**
   * The directory of a summary page: `acsee/results/` or `csee/results/` on the NECTA hosts from
   * 2015 on, `csee/` for CSEE before, the year's own directory on the archive.
   */
  lemma SummaryUrlDirectory(m: StudentsModel)
    requires GetSummaryUrl(m).Some?
    ensures var u, sn := GetSummaryUrl(m).value, m.schoolNumber;
            && (m.examType == "acsee" && !IsArchived(m) ==> EndsWith(u, "/acsee/results/" + sn + ".htm"))
            && (m.examType == "csee" && m.year > 2014 ==> EndsWith(u, "/csee/results/" + sn + ".htm"))
            && (m.examType == "csee" && m.year <= 2014 ==> EndsWith(u, "/csee/" + sn + ".htm"))
            && (IsArchived(m) ==> EndsWith(u, "ACSEE" + IntToString(m.year) + "/" + sn + ".html"))
  {
    if m.examType == "acsee" {
      AcseeSummaryDirectory(m);
    } else if m.examType == "csee" {
      CseeSummaryDirectory(m);
    }
  }

  /**
   * A validated but capitalised exam type such as "CSEE" matches neither branch: no roster URL, an
   * empty summary URL, and the ACSEE layout threshold for the table number.
   */
  lemma CapitalisedExamType(schoolNumber: string)
    ensures IsExamType("CSEE")
    ensures GetSchoolUrl(NectaBase(2021, "CSEE")) == Err(UnknownExamType("CSEE"))
    ensures GetSummaryUrl(StudentsModel(2021, "CSEE", schoolNumber)) == Some("")
    ensures Index(StudentsModel(2019, "CSEE", schoolNumber)) != 0
    ensures Index(StudentsModel(2019, "csee", schoolNumber)) == 0
  {
    assert Lower("CSEE") == "csee";
  }
}
