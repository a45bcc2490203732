/**
 * The student dashboard of `app/dashboard/page.tsx`: the student-area gate, the
 * welcome name, the number of open exams and the most recent result. The two API
 * responses are inputs; a failed request is caught and leaves its default.
 */
module DashboardPage {
  import opened Wrappers
  import opened Json
  import opened AuthServer
  import opened Routing
  import opened ExamsLayout
  import opened ResultOrder

  /** What the page shows; `latestTitle` is the heading of the latest-result card. */
  datatype View = View(displayName: Option<Json>, openCount: nat, latest: Option<StudentResult>,
                       latestTitle: Option<string>)

  /** `new Date(r.submissionTime).getTime()`; an absent time is an invalid date. */
  function SubmissionKey(parse: string -> Option<int>): StudentResult -> Option<int>
  {
    (r: StudentResult) => if r.submissionTime.Some? then parse(r.submissionTime.value) else None
  }

  /** `latestResult.examName ?? "Exam"`. */
  function LatestTitle(r: StudentResult): (title: string)
    ensures r.examName.Some? ==> title == r.examName.value
    ensures r.examName.None? ==> title == "Exam"
  {
    if r.examName.Some? then r.examName.value else "Exam"
  }

  /**
   * The page: redirected exactly as the student area is; otherwise the display name,
   * the open-exam count (0 when the request failed), and as latest result a most recent
   * one of the fetched results (none when there are none or the request failed) with
   * its card heading.
   */
  method Page(user: Option<User>, exams: Result<Option<seq<Json>>, string>,
              results: Result<Option<seq<StudentResult>>, string>, parse: string -> Option<int>)
    returns (d: Decision<View>)
    ensures d.Redirect? <==> StudentGate(user).Some?
    ensures d.Redirect? ==> Some(d.target) == StudentGate(user)
    ensures d.Render? ==> user.Some? && d.view.displayName == DisplayName(user.value)
    ensures d.Render? ==> d.view.openCount == |Listed(exams)|
    ensures d.Render? ==> (d.view.latest.None? <==> |Listed(results)| == 0)
    ensures d.Render? ==> d.view.latestTitle.Some? == d.view.latest.Some?
    ensures d.Render? && d.view.latest.Some? ==>
      && d.view.latestTitle == Some(LatestTitle(d.view.latest.value))
      && d.view.latest.value in Listed(results)
      && forall r :: r in Listed(results) ==>
           AtLeast(SubmissionKey(parse)(d.view.latest.value), SubmissionKey(parse)(r))
  {
    var gate := StudentGate(user);
    if gate.Some? {
      return Redirect(gate.value);
    }
    var items := Listed(results);
    var sorted := SortedNewestFirst(items, SubmissionKey(parse));
    var latest: Option<StudentResult> := None;
    var title: Option<string> := None;
    if |sorted| > 0 {
      latest := Some(sorted[0]);
      title := Some(LatestTitle(sorted[0]));
      FirstIsNewest(sorted, SubmissionKey(parse));
      assert sorted[0] in multiset(items);
      forall r | r in items ensures r in sorted {
        assert r in multiset(sorted);
      }
    } else {
      assert |multiset(items)| == 0;
    }
    d := Render(View(DisplayName(user.value), |Listed(exams)|, latest, title));
  }
}
