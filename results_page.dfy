/**
 * The results table of `app/results/page.tsx`: the student-area gate, the fetched
 * results newest first, and one row per result with its fallback labels. Date
 * parsing and locale formatting are parameters.
 */
module ResultsPage {
  import opened Wrappers
  import opened Strings
  import opened AuthServer
  import opened Routing
  import opened ExamsLayout
  import opened ResultOrder

  /** One table row: React key, exam title, exam id, score and submission time. */
  datatype Row = Row(key: string, title: string, examId: string, score: string, submitted: string)

  /** What the page shows: the ordered results and their rows. */
  datatype View = View(results: seq<StudentResult>, rows: seq<Row>)

  const Dash := "—"

  predicate Truthy(s: Option<string>)
  {
    s.Some? && s.value != ""
  }

  /** `a || b || undefined` on optional strings. */
  function Either(a: Option<string>, b: Option<string>): (r: Option<string>)
    ensures Truthy(a) ==> r == a
    ensures !Truthy(a) && Truthy(b) ==> r == b
    ensures !Truthy(a) && !Truthy(b) ==> r == None
  {
    if Truthy(a) then a else if Truthy(b) then b else None
  }

  /** `submissionTime || submittedAt || ""`. */
  function SortTime(r: StudentResult): string
  {
    var t := Either(r.submissionTime, r.submittedAt);
    if t.Some? then t.value else ""
  }

  function SortKey(parse: string -> Option<int>): StudentResult -> Option<int>
  {
    (r: StudentResult) => parse(SortTime(r))
  }

  /**
   * `formatDateTime(value)`: a dash for an absent or empty value, the value itself
   * when it is not a valid date, the formatted date otherwise.
   */
  function FormatDateTime(value: Option<string>, parse: string -> Option<int>, format: int -> string)
    : (text: string)
    ensures !Truthy(value) ==> text == Dash
    ensures Truthy(value) && parse(value.value).None? ==> text == value.value
    ensures Truthy(value) && parse(value.value).Some? ==> text == format(parse(value.value).value)
  {
    if !Truthy(value) then Dash
    else match parse(value.value)
      case None => value.value
      case Some(t) => format(t)
  }

  /** `score ?? "—"` as text. */
  function ScoreText(score: Option<int>): string
  {
    if score.Some? then IntToString(score.value) else Dash
  }

  /** `score / maxScore` when a maximum is known, else the score alone; a missing score is a dash. */
  function ScoreLabel(r: StudentResult): (shown: string)
    ensures r.maxScore.Some? ==> shown == ScoreText(r.score) + " / " + IntToString(r.maxScore.value)
    ensures r.maxScore.None? ==> shown == ScoreText(r.score)
  {
    if r.maxScore.Some? then ScoreText(r.score) + " / " + IntToString(r.maxScore.value) else ScoreText(r.score)
  }

  /** `r.attemptKey || `${r.examId}-${idx}``. */
  function RowKey(r: StudentResult, idx: nat): (k: string)
    ensures Truthy(r.attemptKey) ==> k == r.attemptKey.value
    ensures !Truthy(r.attemptKey) ==> k == r.examId + "-" + NatToString(idx)
  {
    if Truthy(r.attemptKey) then r.attemptKey.value else r.examId + "-" + NatToString(idx)
  }

  /** Rows of the same exam without attempt keys still get distinct keys. */
  lemma RowKeysDistinct(r: StudentResult, s: StudentResult, i: nat, j: nat)
    requires !Truthy(r.attemptKey) && !Truthy(s.attemptKey) && r.examId == s.examId && i != j
    ensures RowKey(r, i) != RowKey(s, j)
  {
    var n := |r.examId| + 1;
    if RowKey(r, i) == RowKey(s, j) {
      assert RowKey(r, i)[n..] == NatToString(i);
      assert RowKey(s, j)[n..] == NatToString(j);
      NatToStringValue(i);
      NatToStringValue(j);
      assert false;
    }
  }

  /** `r.examName || r.examId`. */
  function Title(r: StudentResult): (title: string)
    ensures Truthy(r.examName) ==> title == r.examName.value
    ensures !Truthy(r.examName) ==> title == r.examId
  {
    if Truthy(r.examName) then r.examName.value else r.examId
  }

  function RowOf(r: StudentResult, idx: nat, parse: string -> Option<int>, format: int -> string): Row
  {
    Row(RowKey(r, idx), Title(r), r.examId, ScoreLabel(r),
        FormatDateTime(Either(r.submissionTime, r.submittedAt), parse, format))
  }

  /**
   * The page: redirected exactly as the student area is; otherwise the fetched results
   * (none when the request failed) reordered newest first by their sort time, and one
   * row for each, in that order.
   */
  method Page(user: Option<User>, fetched: Result<Option<seq<StudentResult>>, string>,
              parse: string -> Option<int>, format: int -> string)
    returns (d: Decision<View>)
    ensures d.Redirect? <==> StudentGate(user).Some?
    ensures d.Redirect? ==> Some(d.target) == StudentGate(user)
    ensures d.Render? ==> multiset(d.view.results) == multiset(Listed(fetched))
    ensures d.Render? ==> NewestFirst(d.view.results, SortKey(parse))
    ensures d.Render? && fetched.Failure? ==> d.view.results == []
    ensures d.Render? ==> |d.view.rows| == |d.view.results|
    ensures d.Render? ==> forall i :: 0 <= i < |d.view.rows| ==>
      d.view.rows[i] == RowOf(d.view.results[i], i, parse, format)
  {
    var gate := StudentGate(user);
    if gate.Some? {
      return Redirect(gate.value);
    }
    var results := SortedNewestFirst(Listed(fetched), SortKey(parse));
    if fetched.Failure? {
      assert |multiset(results)| == 0;
    }
    var rows := seq(|results|, i requires 0 <= i < |results| => RowOf(results[i], i, parse, format));
    d := Render(View(results, rows));
  }
}
