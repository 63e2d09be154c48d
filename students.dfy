/**
 * `students`: the per-student results of one school or centre, read from a table of its summary
 * page, including the subject/grade cell that `splitAfter` decodes.
 */
module Students {
  import opened Text
  import opened Outcome
  import Model

  /** The texts of a row's `<td>` cells, in order. */
  type Row = seq<string>
  /** The rows of a `<table>`, in order. */
  type Table = seq<Row>
  /** Every `<table>` of a parsed summary page, in document order. */
  type SummaryPage = seq<Table>

  /** A Python `dict` from subject to grade: pairs in insertion order. */
  type Subjects = seq<(string, string)>

  datatype Student = Student(
    examinationNumber: string,
    gender: string,
    division: string,
    points: string,
    subjects: Subjects)

  /** The dictionary `students` returns, without the two fields it takes from the summary module. */
  datatype StudentsResult = StudentsResult(
    schoolNumber: string,
    yearOfExam: int,
    examType: string,
    students: seq<Student>)

  // ---------------------------------------------------------------- dict semantics

  /** The keys of a dict in order, and likewise the subjects of a list of pairs. */
  function Keys(d: Subjects): (r: seq<string>)
    ensures |r| == |d| && forall i :: 0 <= i < |d| ==> r[i] == d[i].0
  {
    seq(|d|, i requires 0 <= i < |d| => d[i].0)
  }

  predicate Distinct(ks: seq<string>)
  {
    forall i, j :: 0 <= i < j < |ks| ==> ks[i] != ks[j]
  }

  /** The position of the first `k` in `ks`. */
  function FirstAt(ks: seq<string>, k: string): (r: nat)
    requires k in ks
    ensures r < |ks| && ks[r] == k && forall j :: 0 <= j < r ==> ks[j] != k
  {
    if ks[0] == k then 0 else 1 + FirstAt(ks[1..], k)
  }

  /** `d.get(k)`. */
  function Lookup(d: Subjects, k: string): Option<string>
  {
    if k in Keys(d) then Some(d[FirstAt(Keys(d), k)].1) else None
  }

  lemma LookupAt(d: Subjects, i: nat)
    requires Distinct(Keys(d)) && i < |d|
    ensures Lookup(d, d[i].0) == Some(d[i].1)
  {
    assert Keys(d)[i] == d[i].0;
  }

  /**
   * `d.update({k: v})`: an existing key keeps its position and takes the new value; a new key goes
   * last.
   */
  function Put(d: Subjects, k: string, v: string): Subjects
  {
    if k in Keys(d) then seq(|d|, i requires 0 <= i < |d| => if d[i].0 == k then (k, v) else d[i])
    else d + [(k, v)]
  }

  lemma PutKeys(d: Subjects, k: string, v: string)
    ensures Keys(Put(d, k, v)) == if k in Keys(d) then Keys(d) else Keys(d) + [k]
  {
  }

  /** After `d.update({k: v})` the key `k` reads `v` and every other key reads what it read before. */
  lemma LookupPut(d: Subjects, k: string, v: string, k': string)
    requires Distinct(Keys(d))
    ensures Distinct(Keys(Put(d, k, v)))
    ensures Lookup(Put(d, k, v), k') == if k' == k then Some(v) else Lookup(d, k')
  {
    var r := Put(d, k, v);
    PutKeys(d, k, v);
    if k' == k {
      if k in Keys(d) {
        var i := FirstAt(Keys(d), k);
        LookupAt(r, i);
      } else {
        LookupAt(r, |d|);
      }
    } else if k' in Keys(d) {
      var i := FirstAt(Keys(d), k');
      assert r[i] == d[i];
      LookupAt(d, i);
      LookupAt(r, i);
    }
  }

  /** The dict built by updating an empty one with each pair in turn. */
  function Collect(pairs: seq<(string, string)>): Subjects
  {
    if pairs == [] then []
    else
      var last := pairs[|pairs| - 1];
      Put(Collect(pairs[..|pairs| - 1]), last.0, last.1)
  }

  /** The distinct elements of `ks` in order of their first appearance. */
  function Dedup(ks: seq<string>): seq<string>
  {
    if ks == [] then []
    else
      var d := Dedup(ks[..|ks| - 1]);
      if ks[|ks| - 1] in d then d else d + [ks[|ks| - 1]]
  }

  lemma {:induction false} DedupDistinct(ks: seq<string>)
    ensures Distinct(Dedup(ks))
    ensures forall k :: k in Dedup(ks) <==> k in ks
  {
    if ks != [] {
      var init := ks[..|ks| - 1];
      DedupDistinct(init);
      assert ks == init + [ks[|ks| - 1]];
    }
  }

  /** The keys of the collected dict are the subjects, each once, in order of first appearance. */
  lemma {:induction false} CollectKeys(pairs: seq<(string, string)>)
    ensures Keys(Collect(pairs)) == Dedup(Keys(pairs))
  {
    if pairs != [] {
      var init, last := pairs[..|pairs| - 1], pairs[|pairs| - 1];
      assert pairs == init + [last];
      CollectKeys(init);
      CollectSnoc(init, last);
      PutKeys(Collect(init), last.0, last.1);
      KeysSnoc(init, last);
      DedupSnoc(Keys(init), last.0);
    }
  }

  lemma KeysSnoc(init: seq<(string, string)>, p: (string, string))
    ensures Keys(init + [p]) == Keys(init) + [p.0]
  {
  }

  lemma DedupSnoc(ks: seq<string>, k: string)
    ensures Dedup(ks + [k]) == if k in Dedup(ks) then Dedup(ks) else Dedup(ks) + [k]
  {
    assert (ks + [k])[..|ks|] == ks;
  }

  /** A dict holds each subject once, and exactly the subjects written. */
  lemma CollectUnique(pairs: seq<(string, string)>)
    ensures Distinct(Keys(Collect(pairs)))
    ensures forall k :: k in Keys(Collect(pairs)) <==> k in Keys(pairs)
  {
    CollectKeys(pairs);
    DedupDistinct(Keys(pairs));
  }

  /** The grade written last for `k`, if any. */
  function LastGrade(pairs: seq<(string, string)>, k: string): Option<string>
  {
    if pairs == [] then None
    else if pairs[|pairs| - 1].0 == k then Some(pairs[|pairs| - 1].1)
    else LastGrade(pairs[..|pairs| - 1], k)
  }

  /** A repeated subject ends with the grade written last for it: `dict.update` is last-write-wins. */
  lemma {:induction false} LastWriteWins(pairs: seq<(string, string)>, k: string)
    ensures Lookup(Collect(pairs), k) == LastGrade(pairs, k)
  {
    if pairs != [] {
      var init := pairs[..|pairs| - 1];
      var last := pairs[|pairs| - 1];
      LastWriteWins(init, k);
      CollectUnique(init);
      LookupPut(Collect(init), last.0, last.1, k);
    }
  }

  // ---------------------------------------------------------------- the subject cell

  /** A quote at `i` followed by a space: where the scan of `splitAfter` closes an entry. */
  predicate IsFlush(text: string, i: int)
  {
    0 <= i && i + 1 < |text| && text[i] == '\'' && text[i + 1] == ' '
  }

  /** The first flush position of `text` at or after `s`, if any. */
  function FlushFrom(text: string, s: nat): (r: Option<nat>)
    ensures r.Some? ==> s <= r.value && IsFlush(text, r.value)
    decreases |text| - s
  {
    if s + 1 >= |text| then None
    else if IsFlush(text, s) then Some(s)
    else FlushFrom(text, s + 1)
  }

  /** The position found is a flush with none before it; when none is found there is none at all. */
  lemma {:induction false} FlushFromSpec(text: string, s: nat)
    ensures var r := FlushFrom(text, s);
            && (r.Some? ==> s <= r.value && IsFlush(text, r.value)
                            && forall j :: s <= j < r.value ==> !IsFlush(text, j))
            && (r.None? ==> forall j :: s <= j ==> !IsFlush(text, j))
    decreases |text| - s
  {
    if s + 1 < |text| && !IsFlush(text, s) {
      FlushFromSpec(text, s + 1);
    }
  }

  /**
   * The entries of a subject cell from position `s` on: the text cut just after every quote that a
   * space follows. What trails the last such quote is not an entry.
   */
  function EntriesFrom(text: string, s: nat): seq<string>
    decreases |text| - s
  {
    match FlushFrom(text, s)
    case None => []
    case Some(i) => [text[s..i + 1]] + EntriesFrom(text, i + 1)
  }

  function Entries(text: string): seq<string>
  {
    EntriesFrom(text, 0)
  }

  function Concat(es: seq<string>): string
  {
    if es == [] then "" else es[0] + Concat(es[1..])
  }

  lemma ConcatCons(e: string, es: seq<string>)
    ensures Concat([e] + es) == e + Concat(es)
  {
    assert ([e] + es)[1..] == es;
  }

  /**
   * The entries put together are the text from `s` on up to some point, and after that point no
   * quote is followed by a space.
   */
  lemma {:induction false} EntriesCover(text: string, s: nat)
    requires s <= |text|
    ensures var c := Concat(EntriesFrom(text, s));
            && s + |c| <= |text| && c == text[s..s + |c|]
            && forall j :: s + |c| <= j ==> !IsFlush(text, j)
    decreases |text| - s
  {
    FlushFromSpec(text, s);
    var f := FlushFrom(text, s);
    if f.Some? {
      var i := f.value;
      EntriesCover(text, i + 1);
      CoverStep(text, s, i);
    } else {
      EntriesFromNone(text, s);
    }
  }

  /** One entry cut from `s` to a flush at `i`, followed by entries covering the text from `i + 1`. */
  lemma CoverStep(text: string, s: nat, i: nat)
    requires FlushFrom(text, s) == Some(i)
    requires var c := Concat(EntriesFrom(text, i + 1));
             i + 1 + |c| <= |text| && c == text[i + 1..i + 1 + |c|]
    ensures var c := Concat(EntriesFrom(text, s));
            s + |c| == i + 1 + |Concat(EntriesFrom(text, i + 1))| && c == text[s..s + |c|]
  {
    var rest := EntriesFrom(text, i + 1);
    EntriesFromFlush(text, s, i);
    ConcatCons(text[s..i + 1], rest);
    var c' := Concat(rest);
    assert text[s..i + 1] + text[i + 1..i + 1 + |c'|] == text[s..i + 1 + |c'|];
  }

  /**
   * Every entry ends with a quote, the text continues after it with a space, and the entry holds
   * no other quote followed by a space.
   */
  lemma {:induction false} EntryShape(text: string, s: nat, k: nat)
    requires k < |EntriesFrom(text, s)|
    ensures var es := EntriesFrom(text, s);
            var e := es[k];
            var p := s + |Concat(es[..k + 1])|;
            && e != [] && e[|e| - 1] == '\''
            && p < |text| && text[p] == ' '
            && forall j :: !IsFlush(e, j)
    decreases |text| - s
  {
    var es := EntriesFrom(text, s);
    var i := FlushFrom(text, s).value;
    var head := text[s..i + 1];
    var rest := EntriesFrom(text, i + 1);
    assert es == [head] + rest;
    if k == 0 {
      assert es[..1] == [head];
      ConcatCons(head, []);
      FlushFromSpec(text, s);
      NoFlushInside(text, s, i + 1);
    } else {
      EntryShape(text, i + 1, k - 1);
      assert es[..k + 1] == [head] + rest[..k];
      ConcatCons(head, rest[..k]);
    }
  }

  lemma NoFlushInside(text: string, s: nat, e: nat)
    requires s < e <= |text|
    requires forall j :: s <= j < e - 1 ==> !IsFlush(text, j)
    ensures forall j :: !IsFlush(text[s..e], j)
  {
    var e := text[s..e];
    forall j ensures !IsFlush(e, j) {
      if 0 <= j && j + 1 < |e| {
        assert e[j] == text[s + j] && e[j + 1] == text[s + j + 1];
        assert !IsFlush(text, s + j);
      }
    }
  }

  /** A cell of at most one character yields no entry: the scan never starts. */
  lemma ShortCellNoEntries(text: string)
    requires |text| <= 1
    ensures Entries(text) == []
  {
  }

  /** `v.split("-")[0].strip()` and `v.split("-")[1].strip().strip("'")`, or the IndexError. */
  function ParseEntry(v: string): (r: Result<(string, string)>)
    ensures r.Err? <==> '-' !in v
    ensures r.Err? ==> r.error == EntryWithoutHyphen(v)
  {
    var q := Split(v, '-');
    if |q| < 2 then Err(EntryWithoutHyphen(v))
    else Ok((Strip(q[0], PyWhitespace), Strip(Strip(q[1], PyWhitespace), {'\''})))
  }

  /**
   * The subject is the text before the first hyphen, whitespace stripped (a leading quote stays);
   * the grade is the text between the first and the second hyphen, whitespace and then quotes
   * stripped.
   */
  lemma ParseEntryParts(v: string)
    requires '-' in v
    ensures var q0 := Before(v, '-');
            && ParseEntry(v).value.0 == Strip(q0, PyWhitespace)
            && ParseEntry(v).value.1 == Strip(Strip(Before(v[|q0| + 1..], '-'), PyWhitespace), {'\''})
  {
    SplitHead(v, '-');
  }

  /** The result of parsing each entry. */
  function EntryResults(es: seq<string>): (r: seq<Result<(string, string)>>)
    ensures |r| == |es| && forall i :: 0 <= i < |es| ==> r[i] == ParseEntry(es[i])
  {
    seq(|es|, i requires 0 <= i < |es| => ParseEntry(es[i]))
  }

  /** The pairs of the entries in turn, or the error of the first entry without a hyphen. */
  function ParsePairs(es: seq<string>): Result<seq<(string, string)>>
  {
    AllOk(EntryResults(es))
  }

  /**
   * The pairs are parsed exactly when every entry has a hyphen; there is then one pair per entry,
   * in order.
   */
  lemma ParsePairsOk(es: seq<string>)
    ensures ParsePairs(es).Ok? <==> forall i :: 0 <= i < |es| ==> '-' in es[i]
  {
    var rs := EntryResults(es);
    AllOkIff(rs);
    assert forall i :: 0 <= i < |es| ==> (rs[i].Ok? <==> '-' in es[i]);
  }

  /** When every entry parses, the pairs are the entries' pairs, one per entry, in order. */
  lemma ParsePairsValues(es: seq<string>)
    requires ParsePairs(es).Ok?
    ensures |ParsePairs(es).value| == |es|
    ensures forall i :: 0 <= i < |es| ==> ParseEntry(es[i]) == Ok(ParsePairs(es).value[i])
  {
    AllOkValues(EntryResults(es));
  }

  /** Otherwise the first entry without a hyphen is the one raised. */
  lemma FirstEntryWithoutHyphen(es: seq<string>, i: nat)
    requires i < |es| && '-' !in es[i]
    requires forall j :: 0 <= j < i ==> '-' in es[j]
    ensures ParsePairs(es) == Err(EntryWithoutHyphen(es[i]))
  {
    AllOkFirstErr(EntryResults(es), i);
  }

  /** What `splitAfter(text)` returns or raises. */
  function DecodeSubjects(text: string): Result<Subjects>
  {
    match ParsePairs(Entries(text))
    case Err(e) => Err(e)
    case Ok(ps) => Ok(Collect(ps))
  }

  /**
   * A subject cell decodes exactly when each of its entries has a hyphen; the result holds each
   * subject once, in order of first appearance, with the grade of its last entry.
   */
  lemma DecodedSubjects(text: string)
    ensures DecodeSubjects(text).Ok? <==> forall i :: 0 <= i < |Entries(text)| ==> '-' in Entries(text)[i]
    ensures DecodeSubjects(text).Ok? ==>
              var ps := ParsePairs(Entries(text)).value;
              && Keys(DecodeSubjects(text).value) == Dedup(Keys(ps))
              && Distinct(Keys(DecodeSubjects(text).value))
              && forall k :: Lookup(DecodeSubjects(text).value, k) == LastGrade(ps, k)
  {
    ParsePairsOk(Entries(text));
    if DecodeSubjects(text).Ok? {
      var ps := ParsePairs(Entries(text)).value;
      CollectKeys(ps);
      CollectUnique(ps);
      forall k ensures Lookup(Collect(ps), k) == LastGrade(ps, k) {
        LastWriteWins(ps, k);
      }
    }
  }

  lemma {:induction false} FlushFromIs(text: string, s: nat, i: nat)
    requires s <= i && IsFlush(text, i)
    requires forall j :: s <= j < i ==> !IsFlush(text, j)
    ensures FlushFrom(text, s) == Some(i)
    decreases i - s
  {
    if s < i {
      assert !IsFlush(text, s);
      FlushFromIs(text, s + 1, i);
    }
  }

  lemma {:induction false} NoFlushAt(text: string, s: nat)
    requires forall j :: s <= j ==> !IsFlush(text, j)
    ensures FlushFrom(text, s) == None
    decreases |text| - s
  {
    if s + 1 < |text| {
      assert !IsFlush(text, s);
      NoFlushAt(text, s + 1);
    }
  }

  lemma NoFlushFrom(text: string, s: nat)
    requires forall j :: s <= j ==> !IsFlush(text, j)
    ensures EntriesFrom(text, s) == []
  {
    NoFlushAt(text, s);
  }

  /** The first loop of `splitAfter`: cut the cell after every quote followed by a space. */
  method ScanEntries(text: string) returns (values: seq<string>)
    ensures values == Entries(text)
  {
    values := [];
    var temp := "";
    var i := 0;
    ghost var start := 0;
    while i < |text| - 1
      invariant 0 <= start <= i <= |text|
      invariant temp == text[start..i]
      invariant forall j :: start <= j < i ==> !IsFlush(text, j)
      invariant values + EntriesFrom(text, start) == Entries(text)
    {
      temp := temp + [text[i]];
      assert temp == text[start..i + 1];
      if text[i] == '\'' && text[i + 1] == ' ' {
        ScanFlush(text, values, start, i);
        values := values + [temp];
        temp := "";
        start := i + 1;
      }
      i := i + 1;
    }
    ScanEnd(text, values, start);
  }

  /** A flush at `i`, the first since `start`, moves the entry up to it into the values. */
  lemma ScanFlush(text: string, values: seq<string>, start: nat, i: nat)
    requires start <= i && IsFlush(text, i)
    requires forall j :: start <= j < i ==> !IsFlush(text, j)
    requires values + EntriesFrom(text, start) == Entries(text)
    ensures (values + [text[start..i + 1]]) + EntriesFrom(text, i + 1) == Entries(text)
  {
    FlushFromIs(text, start, i);
    EntriesFromFlush(text, start, i);
    var e := [text[start..i + 1]];
    assert (values + e) + EntriesFrom(text, i + 1) == values + (e + EntriesFrom(text, i + 1));
  }

  /** At the end of the scan no flush is left, and the values are all the entries. */
  lemma ScanEnd(text: string, values: seq<string>, start: nat)
    requires forall j :: start <= j < |text| - 1 ==> !IsFlush(text, j)
    requires values + EntriesFrom(text, start) == Entries(text)
    ensures values == Entries(text)
  {
    NoFlushFrom(text, start);
    assert values + [] == values;
  }

  /** `splitAfter(text)`: collect the entries of the cell, then update a dict with each pair. */
  method SplitAfter(text: string) returns (r: Result<Subjects>)
    ensures r == DecodeSubjects(text)
  {
    var values := ScanEntries(text);
    ghost var results := EntryResults(values);
    var subjects: Subjects := [];
    ghost var pairs: seq<(string, string)> := [];
    for k := 0 to |values|
      invariant AllOk(results[..k]) == Ok(pairs)
      invariant subjects == Collect(pairs)
    {
      var v := values[k];
      var q := Split(v, '-');
      AllOkStep(results, k);
      if |q| < 2 {
        AllOkErr(results, k + 1);
        return Err(EntryWithoutHyphen(v));
      }
      var subject := Strip(q[0], PyWhitespace);
      var grade := Strip(Strip(q[1], PyWhitespace), {'\''});
      assert results[k] == Ok((subject, grade));
      subjects := Put(subjects, subject, grade);
      assert (pairs + [(subject, grade)])[..|pairs|] == pairs;
      pairs := pairs + [(subject, grade)];
    }
    assert results[..|values|] == results;
    r := Ok(subjects);
  }

  // ---------------------------------------------------------------- the cell format

  /** A subject or grade the cell format carries unchanged: no hyphen, no quote, no outer whitespace. */
  predicate Clean(x: string)
  {
    '-' !in x && '\'' !in x && (x == [] || (!IsPySpace(x[0]) && !IsPySpace(x[|x| - 1])))
  }

  predicate CleanPairs(pairs: seq<(string, string)>)
  {
    forall i :: 0 <= i < |pairs| ==> Clean(pairs[i].0) && Clean(pairs[i].1)
  }

  /** One entry as the results pages write it: `SUBJ - 'G'`. */
  function EntryText(p: (string, string)): string
  {
    p.0 + " - '" + p.1 + "'"
  }

  /** A subject cell, every entry followed by a space: `CIV - 'C' HIST - 'D' `. */
  function Cell(pairs: seq<(string, string)>): string
  {
    if pairs == [] then "" else EntryText(pairs[0]) + " " + Cell(pairs[1..])
  }

  /** The entries the scan of a cell cuts: after the first, each starts with the separating space. */
  function EntryTexts(lead: string, pairs: seq<(string, string)>): (r: seq<string>)
    ensures |r| == |pairs|
  {
    seq(|pairs|, i requires 0 <= i < |pairs| => (if i == 0 then lead else " ") + EntryText(pairs[i]))
  }

  lemma {:induction false} FlushShift(a: string, b: string, s: nat)
    ensures FlushFrom(a + b, |a| + s) == match FlushFrom(b, s)
                                         case None => None
                                         case Some(i) => Some(|a| + i)
    decreases |b| - s
  {
    if s + 1 < |b| {
      assert (a + b)[|a| + s] == b[s] && (a + b)[|a| + s + 1] == b[s + 1];
      if !IsFlush(b, s) {
        FlushShift(a, b, s + 1);
      }
    }
  }

  lemma SliceShift(a: string, b: string, x: nat, y: nat)
    requires x <= y <= |b|
    ensures (a + b)[|a| + x..|a| + y] == b[x..y]
  {
    var u := (a + b)[|a| + x..|a| + y];
    assert |u| == y - x;
    forall k | 0 <= k < y - x ensures u[k] == b[x..y][k] {
      assert u[k] == (a + b)[|a| + x + k];
    }
  }

  /** The scan of a text's tail does not depend on what comes before it. */
  lemma {:induction false} EntriesShift(a: string, b: string, s: nat)
    ensures EntriesFrom(a + b, |a| + s) == EntriesFrom(b, s)
    decreases |b| - s
  {
    FlushShift(a, b, s);
    var f := FlushFrom(b, s);
    if f.Some? {
      var i := f.value;
      EntriesShift(a, b, i + 1);
      ShiftStep(a, b, s, i);
    } else {
      EntriesFromNone(b, s);
      EntriesFromNone(a + b, |a| + s);
    }
  }

  lemma ShiftStep(a: string, b: string, s: nat, i: nat)
    requires FlushFrom(b, s) == Some(i) && FlushFrom(a + b, |a| + s) == Some(|a| + i)
    requires EntriesFrom(a + b, |a| + (i + 1)) == EntriesFrom(b, i + 1)
    ensures EntriesFrom(a + b, |a| + s) == EntriesFrom(b, s)
  {
    EntriesFromFlush(b, s, i);
    EntriesFromFlush(a + b, |a| + s, |a| + i);
    SliceShift(a, b, s, i + 1);
    assert |a| + i + 1 == |a| + (i + 1);
  }

  lemma EntriesFromFlush(text: string, s: nat, i: nat)
    requires FlushFrom(text, s) == Some(i)
    ensures EntriesFrom(text, s) == [text[s..i + 1]] + EntriesFrom(text, i + 1)
  {
  }

  lemma EntriesFromNone(text: string, s: nat)
    requires FlushFrom(text, s) == None
    ensures EntriesFrom(text, s) == []
  {
  }

  lemma EntryTextNoFlush(lead: string, p: (string, string))
    requires lead == "" || lead == " "
    requires Clean(p.0) && Clean(p.1)
    ensures var e := lead + EntryText(p);
            && e[|e| - 1] == '\''
            && forall j :: 0 <= j < |e| - 1 ==> !(e[j] == '\'' && e[j + 1] == ' ')
  {
    var a := lead + p.0 + " - ";
    assert lead + EntryText(p) == a + "'" + p.1 + "'";
    assert '\'' !in a;
    QuotedNoFlush(a, p.1);
  }

  /** `a'g'` with no quote in `a` or `g`, and `g` not opening with a space, flushes only at its end. */
  lemma QuotedNoFlush(a: string, g: string)
    requires '\'' !in a && '\'' !in g && (g == [] || g[0] != ' ')
    ensures var e := a + "'" + g + "'";
            && e[|e| - 1] == '\''
            && forall j :: 0 <= j < |e| - 1 ==> !(e[j] == '\'' && e[j + 1] == ' ')
  {
    var e := a + "'" + g + "'";
    forall j | 0 <= j < |e| - 1 ensures !(e[j] == '\'' && e[j + 1] == ' ') {
      if j < |a| {
        assert e[j] == a[j];
      } else if j == |a| {
        assert e[j + 1] == if g == [] then '\'' else g[0];
      } else {
        assert e[j] == g[j - |a| - 1];
      }
    }
  }

  lemma CellEmpty(lead: string, tail: string)
    requires lead == "" || lead == " "
    requires forall j :: !IsFlush(tail, j)
    ensures Entries(lead + tail) == []
  {
    var text := lead + tail;
    FlushShift(lead, tail, 0);
    assert !IsFlush(text, 0);
    assert FlushFrom(text, 0) == FlushFrom(text, |lead|);
  }

  /** A text ending with a quote and holding no other flush is cut off as the first entry. */
  lemma FirstEntryCut(e: string, r: string)
    requires e != [] && e[|e| - 1] == '\''
    requires forall j :: 0 <= j < |e| - 1 ==> !(e[j] == '\'' && e[j + 1] == ' ')
    requires r != [] && r[0] == ' '
    ensures Entries(e + r) == [e] + Entries(r)
  {
    var text := e + r;
    forall j | 0 <= j < |e| - 1 ensures !IsFlush(text, j) {
      assert text[j] == e[j] && text[j + 1] == e[j + 1];
    }
    assert text[|e| - 1] == e[|e| - 1] && text[|e|] == ' ';
    FlushFromIs(text, 0, |e| - 1);
    assert text[0..|e|] == e;
    EntriesShift(e, r, 0);
  }

  /** The first entry of a cell is cut at the quote closing its grade. */
  lemma CellFirstEntry(lead: string, p: (string, string), r: string)
    requires lead == "" || lead == " "
    requires Clean(p.0) && Clean(p.1)
    requires r != [] && r[0] == ' '
    ensures Entries(lead + EntryText(p) + r) == [lead + EntryText(p)] + Entries(r)
  {
    EntryTextNoFlush(lead, p);
    FirstEntryCut(lead + EntryText(p), r);
  }

  /**
   * Scanning a cell cuts it into its entries; a tail with no quote followed by a space adds
   * nothing.
   */
  lemma {:induction false} CellEntries(lead: string, pairs: seq<(string, string)>, tail: string)
    requires lead == "" || lead == " "
    requires CleanPairs(pairs)
    requires forall j :: !IsFlush(tail, j)
    ensures Entries(lead + Cell(pairs) + tail) == EntryTexts(lead, pairs)
    decreases |pairs|
  {
    if pairs == [] {
      assert lead + Cell(pairs) + tail == lead + tail;
      CellEmpty(lead, tail);
    } else {
      var p, rest := pairs[0], pairs[1..];
      assert pairs == [p] + rest;
      var r := " " + Cell(rest) + tail;
      CellSplitOff(lead, p, rest, tail);
      CellFirstEntry(lead, p, r);
      CleanPairsTail(pairs);
      CellEntries(" ", rest, tail);
      EntryTextsCons(lead, p, rest);
    }
  }

  lemma CellSplitOff(lead: string, p: (string, string), rest: seq<(string, string)>, tail: string)
    ensures lead + Cell([p] + rest) + tail == lead + EntryText(p) + (" " + Cell(rest) + tail)
  {
    CellCons(p, rest);
  }

  lemma CleanPairsTail(pairs: seq<(string, string)>)
    requires pairs != [] && CleanPairs(pairs)
    ensures CleanPairs(pairs[1..])
  {
    var rest := pairs[1..];
    forall i | 0 <= i < |rest| ensures Clean(rest[i].0) && Clean(rest[i].1) {
      assert rest[i] == pairs[i + 1];
    }
  }

  lemma EntryTextsCons(lead: string, p: (string, string), rest: seq<(string, string)>)
    ensures EntryTexts(lead, [p] + rest) == [lead + EntryText(p)] + EntryTexts(" ", rest)
  {
  }

  lemma ParseEntryPieces(v: string, a: string, b: string)
    requires v == a + "-" + b && '-' !in a && '-' !in b
    ensures ParseEntry(v) == Ok((Strip(a, PyWhitespace), Strip(Strip(b, PyWhitespace), {'\''})))
  {
    assert SepPrefixed([b], '-') == "-" + b by { assert [b][1..] == []; }
    assert v == Join([a, b], '-');
    SplitJoin([a, b], '-');
  }

  lemma SubjectStripped(lead: string, s: string)
    requires lead == "" || lead == " "
    requires Clean(s)
    ensures Strip(lead + s + " ", PyWhitespace) == s
  {
    StripPadded(lead, s, " ", PyWhitespace);
  }

  lemma GradeStripped(g: string)
    requires Clean(g)
    ensures Strip(Strip(" " + ("'" + g + "'"), PyWhitespace), {'\''}) == g
  {
    StripLeading(" ", "'" + g + "'", PyWhitespace);
    StripPadded("'", g, "'", {'\''});
  }

  lemma EntryTextPieces(lead: string, s: string, g: string)
    ensures lead + EntryText((s, g)) == (lead + s + " ") + "-" + (" " + ("'" + g + "'"))
  {
    assert " - '" == " " + "-" + " '";
  }

  lemma ParseEntryText(lead: string, p: (string, string))
    requires lead == "" || lead == " "
    requires Clean(p.0) && Clean(p.1)
    ensures ParseEntry(lead + EntryText(p)) == Ok(p)
  {
    var a := lead + p.0 + " ";
    var b := " " + ("'" + p.1 + "'");
    EntryTextPieces(lead, p.0, p.1);
    ParseEntryPieces(lead + EntryText(p), a, b);
    SubjectStripped(lead, p.0);
    GradeStripped(p.1);
  }

  lemma ParseEntryTexts(lead: string, pairs: seq<(string, string)>)
    requires lead == "" || lead == " "
    requires CleanPairs(pairs)
    ensures ParsePairs(EntryTexts(lead, pairs)) == Ok(pairs)
  {
    var es := EntryTexts(lead, pairs);
    var rs := EntryResults(es);
    forall i | 0 <= i < |pairs| ensures rs[i] == Ok(pairs[i]) {
      ParseEntryText(if i == 0 then lead else " ", pairs[i]);
    }
    AllOkIff(rs);
    AllOkValues(rs);
    assert AllOk(rs).value == pairs;
  }

  /**
   * Round trip: a cell rendered from clean subject/grade pairs decodes to the dict those pairs
   * build in turn.
   */
  lemma CellRoundTrip(pairs: seq<(string, string)>)
    requires CleanPairs(pairs)
    ensures DecodeSubjects(Cell(pairs)) == Ok(Collect(pairs))
  {
    assert "" + Cell(pairs) + "" == Cell(pairs);
    CellEntries("", pairs, "");
    ParseEntryTexts("", pairs);
  }

  /** An entry with no space after it is not flushed: the trailing entry of a cell is dropped. */
  lemma TrailingEntryDropped(pairs: seq<(string, string)>, p: (string, string))
    requires CleanPairs(pairs) && Clean(p.0) && Clean(p.1)
    ensures DecodeSubjects(Cell(pairs) + EntryText(p)) == Ok(Collect(pairs))
  {
    var t := EntryText(p);
    EntryTextNoFlush("", p);
    assert "" + t == t;
    assert "" + Cell(pairs) + t == Cell(pairs) + t;
    CellEntries("", pairs, t);
    ParseEntryTexts("", pairs);
  }

  lemma CellOne(p: (string, string))
    ensures Cell([p]) == EntryText(p) + " "
  {
    assert [p][1..] == [];
  }

  lemma CellCons(p: (string, string), ps: seq<(string, string)>)
    ensures Cell([p] + ps) == EntryText(p) + " " + Cell(ps)
  {
    assert ([p] + ps)[1..] == ps;
  }

  lemma CellThree(p: (string, string), q: (string, string), r: (string, string))
    ensures Cell([p, q, r]) == EntryText(p) + " " + (EntryText(q) + " " + (EntryText(r) + " "))
  {
    CellOne(r);
    CellCons(q, [r]);
    CellCons(p, [q, r]);
    assert [q] + [r] == [q, r];
    assert [p] + [q, r] == [p, q, r];
  }

  lemma CellTwo(p: (string, string), q: (string, string))
    ensures Cell([p, q]) == EntryText(p) + " " + (EntryText(q) + " ")
  {
    CellOne(q);
    CellCons(p, [q]);
    assert [p] + [q] == [p, q];
  }

  lemma ExampleEntries()
    ensures EntryText(("CIV", "C")) == "CIV - 'C'"
    ensures EntryText(("HIST", "D")) == "HIST - 'D'"
    ensures EntryText(("CIV", "A")) == "CIV - 'A'"
  {
  }

  lemma ExampleCellTwo()
    ensures Cell([("CIV", "C"), ("HIST", "D")]) == "CIV - 'C' HIST - 'D' "
  {
    CellTwo(("CIV", "C"), ("HIST", "D"));
    ExampleEntries();
  }

  lemma ExampleCell()
    ensures Cell([("CIV", "C"), ("HIST", "D"), ("CIV", "A")]) == "CIV - 'C' HIST - 'D' CIV - 'A' "
    ensures Cell([("CIV", "C")]) + EntryText(("HIST", "D")) == "CIV - 'C' HIST - 'D'"
  {
    CellThree(("CIV", "C"), ("HIST", "D"), ("CIV", "A"));
    CellOne(("CIV", "C"));
    ExampleEntries();
  }

  lemma CollectSnoc(init: seq<(string, string)>, p: (string, string))
    ensures Collect(init + [p]) == Put(Collect(init), p.0, p.1)
  {
    assert (init + [p])[..|init|] == init;
  }

  lemma CollectOne(k: string, x: string)
    ensures Collect([(k, x)]) == [(k, x)]
  {
    CollectSnoc([], (k, x));
    assert [] + [(k, x)] == [(k, x)];
  }

  lemma CollectTwo(k: string, x: string, h: string, y: string)
    requires h != k
    ensures Collect([(k, x), (h, y)]) == [(k, x), (h, y)]
  {
    CollectOne(k, x);
    CollectSnoc([(k, x)], (h, y));
    assert [(k, x)] + [(h, y)] == [(k, x), (h, y)];
    assert Keys([(k, x)]) == [k];
  }

  /** `{k: x}`, then `{h: y}`, then `{k: v}` again: `k` keeps its first position and takes `v`. */
  lemma CollectRepeat(k: string, x: string, h: string, y: string, v: string)
    requires h != k
    ensures Collect([(k, x), (h, y), (k, v)]) == [(k, v), (h, y)]
  {
    CollectTwo(k, x, h, y);
    var d := [(k, x), (h, y)];
    CollectSnoc(d, (k, v));
    assert d + [(k, v)] == [(k, x), (h, y), (k, v)];
    assert Keys(d)[0] == k;
    assert Put(d, k, v) == [(k, v), (h, y)];
  }

  lemma CleanThree(p: (string, string), q: (string, string), r: (string, string))
    requires Clean(p.0) && Clean(p.1) && Clean(q.0) && Clean(q.1) && Clean(r.0) && Clean(r.1)
    ensures CleanPairs([p, q, r])
  {
  }

  lemma CleanTwo(p: (string, string), q: (string, string))
    requires Clean(p.0) && Clean(p.1) && Clean(q.0) && Clean(q.1)
    ensures CleanPairs([p, q])
  {
  }

  lemma ExampleClean()
    ensures CleanPairs([("CIV", "C"), ("HIST", "D"), ("CIV", "A")])
    ensures Collect([("CIV", "C"), ("HIST", "D"), ("CIV", "A")]) == [("CIV", "A"), ("HIST", "D")]
  {
    assert Clean("CIV") && Clean("HIST") && Clean("C") && Clean("D") && Clean("A");
    CleanThree(("CIV", "C"), ("HIST", "D"), ("CIV", "A"));
    assert "HIST" != "CIV" by { assert "HIST"[0] != "CIV"[0]; }
    CollectRepeat("CIV", "C", "HIST", "D", "A");
  }

  /**
   * An entry quoted as a whole, `'SUBJ - G'`, keeps its opening quote in the subject; only the grade
   * loses its quote.
   */
  lemma WhollyQuotedEntry(lead: string, s: string, g: string)
    requires lead == "" || lead == " "
    requires Clean(s) && Clean(g) && g != []
    ensures ParseEntry(lead + "'" + s + " - " + g + "'") == Ok(("'" + s, g))
  {
    var a := lead + ("'" + s) + " ";
    var b := " " + (g + "'");
    QuotedEntryPieces(lead, s, g);
    ParseEntryPieces(lead + "'" + s + " - " + g + "'", a, b);
    QuotedSubjectStripped(lead, s);
    QuotedGradeStripped(g);
  }

  lemma QuotedEntryPieces(lead: string, s: string, g: string)
    requires '-' !in s && '-' !in g
    ensures lead + "'" + s + " - " + g + "'" == (lead + ("'" + s) + " ") + "-" + (" " + (g + "'"))
  {
    assert " - " == " " + "-" + " ";
  }

  lemma QuotedSubjectStripped(lead: string, s: string)
    requires lead == "" || lead == " "
    requires Clean(s)
    ensures Strip(lead + ("'" + s) + " ", PyWhitespace) == "'" + s
  {
    StripPadded(lead, "'" + s, " ", PyWhitespace);
  }

  lemma QuotedGradeStripped(g: string)
    requires Clean(g) && g != []
    ensures Strip(Strip(" " + (g + "'"), PyWhitespace), {'\''}) == g
  {
    StripLeading(" ", g + "'", PyWhitespace);
    StripTrailing(g, "'", {'\''});
  }

  /** A cell of two subjects decodes to both, in the order written. */
  lemma TwoSubjectCell()
    ensures DecodeSubjects("CIV - 'C' HIST - 'D' ") == Ok([("CIV", "C"), ("HIST", "D")])
  {
    var civ, hist := ("CIV", "C"), ("HIST", "D");
    ExampleCellTwo();
    assert Clean("CIV") && Clean("HIST") && Clean("C") && Clean("D");
    CleanTwo(civ, hist);
    CellRoundTrip([civ, hist]);
    assert "HIST" != "CIV" by { assert "HIST"[0] != "CIV"[0]; }
    CollectTwo("CIV", "C", "HIST", "D");
  }

  /**
   * A cell with a repeated subject: the subject keeps its first position and takes its last grade,
   * and the entry trailing the final quote is not read.
   */
  lemma RepeatedSubjectCell()
    ensures DecodeSubjects("CIV - 'C' HIST - 'D' CIV - 'A' ") == Ok([("CIV", "A"), ("HIST", "D")])
    ensures DecodeSubjects("CIV - 'C' HIST - 'D'") == Ok([("CIV", "C")])
  {
    ExampleCell();
    ExampleClean();
    CellRoundTrip([("CIV", "C"), ("HIST", "D"), ("CIV", "A")]);
    TrailingEntryDropped([("CIV", "C")], ("HIST", "D"));
    CollectOne("CIV", "C");
  }

  // ---------------------------------------------------------------- the student table

  /** `td.text.strip("\n")` for every cell: only line feeds are removed, at both ends. */
  function CleanCells(cells: Row): (r: Row)
    ensures |r| == |cells| && forall i :: 0 <= i < |cells| ==> r[i] == Strip(cells[i], {'\n'})
  {
    seq(|cells|, i requires 0 <= i < |cells| => Strip(cells[i], {'\n'}))
  }

  /** The record of one data row, or the error its decoding raises. */
  function StudentOf(cells: Row): Result<Student>
  {
    var row := CleanCells(cells);
    if |row| < 5 then Err(RowTooShort(|row|))
    else match DecodeSubjects(row[4])
      case Err(e) => Err(e)
      case Ok(subjects) => Ok(Student(row[0], row[1], row[3], row[2], subjects))
  }

  /** The result of decoding each row. */
  function RowResults(rows: seq<Row>): (r: seq<Result<Student>>)
    ensures |r| == |rows| && forall i :: 0 <= i < |rows| ==> r[i] == StudentOf(rows[i])
  {
    seq(|rows|, i requires 0 <= i < |rows| => StudentOf(rows[i]))
  }

  /** `find_all("tr")[1:]`: every row but the header. */
  function DataRows(table: Table): (r: seq<Row>)
    ensures |r| == if |table| == 0 then 0 else |table| - 1
    ensures forall i :: 0 <= i < |r| ==> r[i] == table[i + 1]
  {
    if table == [] then [] else table[1..]
  }

  /** What `scrapStudents(soup, index)` returns or raises. */
  function DecodeTable(page: SummaryPage, index: nat): Result<seq<Student>>
  {
    if index >= |page| then Err(TableMissing(index, |page|)) else AllOk(RowResults(DataRows(page[index])))
  }

  /** The cells of one row after `strip("\n")`, built cell by cell. */
  method CleanRow(tr: Row) returns (row: Row)
    ensures row == CleanCells(tr)
  {
    row := [];
    for c := 0 to |tr|
      invariant row == CleanCells(tr[..c])
    {
      row := row + [Strip(tr[c], {'\n'})];
    }
    assert tr[..|tr|] == tr;
  }

  /** `scrapStudents`: decode each data row of the chosen table. */
  method ScrapStudents(page: SummaryPage, index: nat) returns (r: Result<seq<Student>>)
    ensures r == DecodeTable(page, index)
  {
    if index >= |page| {
      return Err(TableMissing(index, |page|));
    }
    var rows := DataRows(page[index]);
    ghost var results := RowResults(rows);
    var data: seq<Student> := [];
    for t := 0 to |rows|
      invariant AllOk(results[..t]) == Ok(data)
    {
      var row := CleanRow(rows[t]);
      AllOkStep(results, t);
      if |row| < 5 {
        AllOkErr(results, t + 1);
        return Err(RowTooShort(|row|));
      }
      var subjects := SplitAfter(row[4]);
      if subjects.Err? {
        AllOkErr(results, t + 1);
        return Err(subjects.error);
      }
      data := data + [Student(row[0], row[1], row[3], row[2], subjects.value)];
    }
    assert results[..|rows|] == results;
    r := Ok(data);
  }

  /**
   * The header row is skipped and every other row of the selected table gives a record, in row
   * order; the table decodes exactly when each of those rows does, and otherwise the first failing
   * row's error is raised. A table index past the last table raises.
   */
  lemma DecodeTableRows(page: SummaryPage, index: nat)
    ensures index >= |page| ==> DecodeTable(page, index) == Err(TableMissing(index, |page|))
    ensures index < |page| ==>
              (DecodeTable(page, index).Ok? <==> forall i :: 0 < i < |page[index]| ==> StudentOf(page[index][i]).Ok?)
    ensures index < |page| && DecodeTable(page, index).Ok? ==>
              var table := page[index];
              && |DecodeTable(page, index).value| == (if |table| == 0 then 0 else |table| - 1)
              && forall i :: 0 < i < |table| ==>
                   StudentOf(table[i]).Ok? && DecodeTable(page, index).value[i - 1] == StudentOf(table[i]).value
  {
    if index < |page| {
      var rs := RowResults(DataRows(page[index]));
      AllOkIff(rs);
      assert (forall i :: 0 <= i < |rs| ==> rs[i].Ok?)
         <==> (forall i :: 0 < i < |page[index]| ==> StudentOf(page[index][i]).Ok?) by {
        forall i | 0 < i < |page[index]| ensures rs[i - 1] == StudentOf(page[index][i]) { }
      }
      if DecodeTable(page, index).Ok? {
        AllOkValues(rs);
        forall i | 0 < i < |page[index]|
          ensures DecodeTable(page, index).value[i - 1] == StudentOf(page[index][i]).value
        {
          assert rs[i - 1] == StudentOf(page[index][i]);
        }
      }
    }
  }

  /** The first data row that fails decides the error: no later row is looked at. */
  lemma FirstFailingRow(page: SummaryPage, index: nat, i: nat)
    requires index < |page| && 0 < i < |page[index]| && StudentOf(page[index][i]).Err?
    requires forall j :: 0 < j < i ==> StudentOf(page[index][j]).Ok?
    ensures DecodeTable(page, index) == Err(StudentOf(page[index][i]).error)
  {
    var rs := RowResults(DataRows(page[index]));
    forall j | 0 <= j < i - 1 ensures rs[j].Ok? {
      assert rs[j] == StudentOf(page[index][j + 1]);
    }
    assert rs[i - 1] == StudentOf(page[index][i]);
    AllOkFirstErr(rs, i - 1);
  }

  /**
   * Columns are read by position: examination number, gender, points, division, subjects; cells
   * are only stripped of line feeds, and cells past the fifth play no part.
   */
  lemma StudentColumns(cells: Row, extra: Row)
    requires |cells| >= 5
    ensures StudentOf(cells + extra) == StudentOf(cells)
    ensures StudentOf(cells).Ok? <==> DecodeSubjects(Strip(cells[4], {'\n'})).Ok?
    ensures StudentOf(cells).Ok? ==>
              var s := StudentOf(cells).value;
              && s.examinationNumber == Strip(cells[0], {'\n'})
              && s.gender == Strip(cells[1], {'\n'})
              && s.points == Strip(cells[2], {'\n'})
              && s.division == Strip(cells[3], {'\n'})
              && s.subjects == DecodeSubjects(Strip(cells[4], {'\n'})).value
  {
    var all := cells + extra;
    assert forall i :: 0 <= i < 5 ==> all[i] == cells[i];
  }

  /** A row of fewer than five cells raises; it never gives a partly filled record. */
  lemma ShortRowRaises(cells: Row)
    requires |cells| < 5
    ensures StudentOf(cells) == Err(RowTooShort(|cells|))
  {
  }

  // ---------------------------------------------------------------- students()

  /**
   * A URL `requests.get` can send: one that names a scheme, `scheme:` before the rest. A URL without
   * one is refused before any request is made.
   */
  predicate HasScheme(url: string)
  {
    ':' in url
  }

  /** What `students(year, exam_type, school_number)` returns or raises, the fetch given as `fetch`. */
  function StudentsOf(year: int, examType: string, schoolNumber: string,
                      fetch: string -> Response<SummaryPage>): Result<Option<StudentsResult>>
  {
    match Model.MakeStudentsModel(year, examType, schoolNumber)
    case Err(e) => Err(e)
    case Ok(m) =>
      var index := Model.Index(m);
      match Model.GetSummaryUrl(m)
      case None => Ok(None)
      case Some(url) =>
        if !HasScheme(url) then Err(MissingSchema(url))
        else
        var data := fetch(url);
        if data.status != 200 then Err(ConnectFailure(data.status))
        else match DecodeTable(data.page, index)
          case Err(e) => Err(e)
          case Ok(students) => Ok(Some(StudentsResult(Lower(m.schoolNumber), m.year, Lower(m.examType), students)))
  }

  /** `students(year, exam_type, school_number)`. */
  method GetStudents(year: int, examType: string, schoolNumber: string,
                     fetch: string -> Response<SummaryPage>) returns (r: Result<Option<StudentsResult>>)
    ensures r == StudentsOf(year, examType, schoolNumber, fetch)
  {
    var student := Model.MakeStudentsModel(year, examType, schoolNumber);
    if student.Err? {
      return Err(student.error);
    }
    var m := student.value;
    var examType := Lower(m.examType);
    var schoolNumber := Lower(m.schoolNumber);
    var year := m.year;
    var index := Model.Index(m);
    var url := Model.GetSummaryUrl(m);
    if url.None? {
      return Ok(None);
    }
    if !HasScheme(url.value) {
      return Err(MissingSchema(url.value));
    }
    var data := fetch(url.value);
    if data.status != 200 {
      return Err(ConnectFailure(data.status));
    }
    var students := ScrapStudents(data.page, index);
    if students.Err? {
      return Err(students.error);
    }
    r := Ok(Some(StudentsResult(schoolNumber, year, examType, students.value)));
  }

  /** Where no summary page exists the result is `None` whatever the fetcher would return. */
  lemma NoPageNoFetch(year: int, examType: string, schoolNumber: string,
                      f1: string -> Response<SummaryPage>, f2: string -> Response<SummaryPage>)
    requires Model.MakeStudentsModel(year, examType, schoolNumber).Ok?
    requires Model.GetSummaryUrl(Model.MakeStudentsModel(year, examType, schoolNumber).value).None?
    ensures StudentsOf(year, examType, schoolNumber, f1) == StudentsOf(year, examType, schoolNumber, f2) == Ok(None)
  {
  }

  /**
   * A result names the school and the exam type in lower case, and its students are the decoded
   * rows of the table `index` selects on the fetched page.
   */
  lemma StudentsResultFields(year: int, examType: string, schoolNumber: string,
                             fetch: string -> Response<SummaryPage>)
    requires StudentsOf(year, examType, schoolNumber, fetch).Ok?
    requires StudentsOf(year, examType, schoolNumber, fetch).value.Some?
    ensures var res := StudentsOf(year, examType, schoolNumber, fetch).value.value;
            var m := Model.StudentsModel(year, examType, schoolNumber);
            && res.schoolNumber == Lower(schoolNumber) && res.examType == Lower(examType)
            && (res.examType == "csee" || res.examType == "acsee")
            && res.yearOfExam == year && year >= 2005
            && res.students == DecodeTable(fetch(Model.GetSummaryUrl(m).value).page, Model.Index(m)).value
  {
  }

  lemma LowerTwice(s: string)
    ensures Lower(Lower(s)) == Lower(s)
  {
  }

  lemma SchoolNumberLower(s: string)
    ensures Model.IsSchoolNumber(Lower(s)) <==> Model.IsSchoolNumber(s)
  {
    if |s| == 5 {
      var n := Lower(s);
      assert n[0] in {'s', 'S', 'p', 'P'} <==> s[0] in {'s', 'S', 'p', 'P'};
      assert forall i :: 1 <= i < 5 ==> (IsDigit(n[i]) <==> IsDigit(s[i]));
    }
  }

  /**
   * For CSEE the letter case of the registration number changes only the URL: when both spellings
   * are served the same page, `S1234` and `s1234` give the same result.
   */
  lemma CseeNumberCaseNormalised(year: int, schoolNumber: string, fetch: string -> Response<SummaryPage>)
    requires var url := Model.GetSummaryUrl(Model.StudentsModel(year, "csee", schoolNumber)).value;
             var url' := Model.GetSummaryUrl(Model.StudentsModel(year, "csee", Lower(schoolNumber))).value;
             fetch(url) == fetch(url')
    ensures StudentsOf(year, "csee", schoolNumber, fetch) == StudentsOf(year, "csee", Lower(schoolNumber), fetch)
  {
    var m := Model.StudentsModel(year, "csee", schoolNumber);
    var m' := Model.StudentsModel(year, "csee", Lower(schoolNumber));
    SummaryUrlHasScheme(m);
    SummaryUrlHasScheme(m');
    LowerTwice(schoolNumber);
    SchoolNumberLower(schoolNumber);
    Model.CseeIndexIgnoresCase(Model.StudentsModel(year, "csee", schoolNumber));
  }

  /** Every summary URL of a lower-case exam type starts with `https:` and so names a scheme. */
  lemma SummaryUrlHasScheme(m: Model.StudentsModel)
    requires (m.examType == "acsee" || m.examType == "csee") && Model.GetSummaryUrl(m).Some?
    ensures "https:" <= Model.GetSummaryUrl(m).value && HasScheme(Model.GetSummaryUrl(m).value)
  {
    Model.SummaryUrlHost(m);
    Model.RootScheme(Model.GetSummaryUrl(m).value, Model.SummaryRoot(m));
  }

  /**
   * A validated exam type that is not lower case, such as "CSEE", gets the empty summary URL, which
   * `requests.get` refuses: `students` then always raises, whatever the fetcher would serve.
   */
  lemma CapitalisedExamTypeRaises(year: int, examType: string, schoolNumber: string,
                                  fetch: string -> Response<SummaryPage>)
    requires Model.MakeStudentsModel(year, examType, schoolNumber).Ok?
    requires Lower(examType) != examType
    ensures StudentsOf(year, examType, schoolNumber, fetch) == Err(MissingSchema(""))
  {
    assert Lower("csee") == "csee" && Lower("acsee") == "acsee";
    assert ':' !in "";
  }

  /** A result is only ever returned for an exam type written in lower case. */
  lemma ResultNeedsLowerCase(year: int, examType: string, schoolNumber: string,
                             fetch: string -> Response<SummaryPage>)
    requires StudentsOf(year, examType, schoolNumber, fetch).Ok?
    requires StudentsOf(year, examType, schoolNumber, fetch).value.Some?
    ensures examType == "csee" || examType == "acsee"
  {
    assert ':' !in "";
  }
}
