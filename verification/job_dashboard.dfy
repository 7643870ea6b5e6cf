/**
 The two-widget dashboard (dashboardx.py): an age-range slider and a job multiselect
 filter the dataset; the page shows a ten-row preview and a job frequency table.
 */
module JobDashboard {
  import opened Masks
  import opened Records
  import Summary
  import Dashboard

  /** The widget values: the inclusive age range `[lo, hi]` and the accepted jobs. */
  datatype Criteria = Criteria(lo: int, hi: int, jobs: seq<string>)

  /** The conjunction of the three column predicates for one row. */
  predicate Matches(c: Criteria, r: Record) {
    r.age >= c.lo && r.age <= c.hi && r.job in c.jobs
  }

  /** The row mask as a value. */
  function Accepts(c: Criteria): Record -> bool {
    (r: Record) => Matches(c, r)
  }

  /**
   The filtered view `df[mask]`. Every kept row has its age in `[lo, hi]` and its job
   selected, and every dataset row missing from the view has its age outside the range
   or a job that is not selected.
   */
  function View(rows: seq<Record>, c: Criteria): (v: seq<Record>)
    ensures |v| <= |rows|
    ensures forall k :: 0 <= k < |v| ==> c.lo <= v[k].age <= c.hi && v[k].job in c.jobs
    ensures forall k :: 0 <= k < |v| ==> v[k] in rows
    ensures forall i :: 0 <= i < |rows| && rows[i] !in v ==>
      rows[i].age < c.lo || rows[i].age > c.hi || rows[i].job !in c.jobs
  {
    KeepMembers(rows, Accepts(c));
    Keep(rows, Accepts(c))
  }

  /** The default widget values: the full age range and every distinct job. */
  function DefaultCriteria(rows: seq<Record>): (c: Option<Criteria>)
    ensures c.None? <==> |rows| == 0
    ensures c.Some? ==> forall i :: 0 <= i < |rows| ==>
      c.value.lo <= rows[i].age <= c.value.hi && rows[i].job in c.value.jobs
    ensures c.Some? ==> exists i :: 0 <= i < |rows| && rows[i].age == c.value.lo
    ensures c.Some? ==> exists i :: 0 <= i < |rows| && rows[i].age == c.value.hi
    ensures c.Some? ==> forall k :: 0 <= k < |c.value.jobs| ==> c.value.jobs[k] in Project(rows, JobOf)
    ensures c.Some? ==> NoDup(c.value.jobs)
  {
    match DefaultAgeRange(rows)
    case None => None
    case Some(range) =>
      Dashboard.ColumnsCovered(rows);
      Some(Criteria(range.0, range.1, Unique(Project(rows, JobOf))))
  }

  /** With the default widget values the view is the whole dataset (and there are none for an empty one). */
  lemma DefaultViewIsDataset(rows: seq<Record>)
    ensures DefaultCriteria(rows).None? ==> rows == []
    ensures DefaultCriteria(rows).Some? ==> View(rows, DefaultCriteria(rows).value) == rows
  {
    if |rows| > 0 {
      KeepAll(rows, Accepts(DefaultCriteria(rows).value));
    }
  }

  /** The view is the whole dataset exactly when every row matches, and empty exactly when none does. */
  lemma ViewExtremes(rows: seq<Record>, c: Criteria)
    ensures View(rows, c) == rows <==> forall i :: 0 <= i < |rows| ==> Matches(c, rows[i])
    ensures View(rows, c) == [] <==> forall i :: 0 <= i < |rows| ==> !Matches(c, rows[i])
  {
    KeepAll(rows, Accepts(c));
    KeepNone(rows, Accepts(c));
  }

  /** Selecting no job excludes every row. */
  lemma EmptyJobSelectionEmptiesView(rows: seq<Record>, c: Criteria)
    requires c.jobs == []
    ensures View(rows, c) == []
  {
    KeepNone(rows, Accepts(c));
  }

  /**
   The criteria that accept a row exactly when both `c` and `d` do: the overlap of the
   two age ranges and the jobs selected in both.
   */
  function Meet(c: Criteria, d: Criteria): (m: Criteria)
    ensures forall r :: Matches(m, r) <==> Matches(c, r) && Matches(d, r)
  {
    var selectedInD := (j: string) => j in d.jobs;
    var jobs := Keep(c.jobs, selectedInD);
    KeepMembers(c.jobs, selectedInD);
    assert forall r: Record :: r.job in jobs <==> r.job in c.jobs && r.job in d.jobs by {
      forall r: Record ensures r.job in jobs <==> r.job in c.jobs && r.job in d.jobs {
        if r.job in c.jobs && r.job in d.jobs {
          var i :| 0 <= i < |c.jobs| && c.jobs[i] == r.job;
        }
      }
    }
    Criteria(
      if c.lo >= d.lo then c.lo else d.lo,
      if c.hi <= d.hi then c.hi else d.hi,
      jobs)
  }

  /**
   Filtering the view again with other widget values gives the view of the dataset
   under both sets of values at once.
   */
  lemma ViewOfView(rows: seq<Record>, c: Criteria, d: Criteria)
    ensures View(View(rows, c), d) == View(rows, Meet(c, d))
  {
    KeepKeep(rows, Accepts(c), Accepts(d));
    KeepAgree(rows, And(Accepts(c), Accepts(d)), Accepts(Meet(c, d)));
  }

  /** Filtering the view again with the same widget values returns the same view. */
  lemma ViewIdempotent(rows: seq<Record>, c: Criteria)
    ensures View(View(rows, c), c) == View(rows, c)
  {
    ViewOfView(rows, c, c);
    KeepAgree(rows, Accepts(Meet(c, c)), Accepts(c));
  }

  /**
   This dashboard's view is the five-widget dashboard's view with the marital,
   education and contact selections left at their defaults (every distinct value).
   */
  lemma AgreesWithFullDashboard(rows: seq<Record>, c: Criteria)
    ensures View(rows, c) == Dashboard.View(rows, Dashboard.Criteria(
      c.lo, c.hi, c.jobs,
      Unique(Project(rows, MaritalOf)),
      Unique(Project(rows, EducationOf)),
      Unique(Project(rows, ContactOf))))
  {
    var full := Dashboard.Criteria(
      c.lo, c.hi, c.jobs,
      Unique(Project(rows, MaritalOf)),
      Unique(Project(rows, EducationOf)),
      Unique(Project(rows, ContactOf)));
    Dashboard.ColumnsCovered(rows);
    KeepAgree(rows, Accepts(c), Dashboard.Accepts(full));
  }

  /** What one run of this dashboard shows. */
  datatype Page = Page(preview: seq<Record>, jobCounts: seq<Summary.JobCount>)

  /**
   One run of the dashboard: the preview is the first (at most ten) rows of the view,
   and the job table lists each job of a matching row once, with the number of matching
   rows that have it; the counts add up to the number of matching dataset rows.
   */
  function Render(rows: seq<Record>, c: Criteria): (p: Page)
    ensures p.preview <= View(rows, c)
    ensures |p.preview| == if Count(rows, Accepts(c)) < Summary.PreviewRows
                           then Count(rows, Accepts(c)) else Summary.PreviewRows
    ensures forall k :: 0 <= k < |p.jobCounts| ==>
      p.jobCounts[k].count > 0 && p.jobCounts[k].job in c.jobs
    ensures Summary.Total(p.jobCounts) == Count(rows, Accepts(c))
    ensures NoDup(Project(p.jobCounts, Summary.KeyOf))
    ensures forall k :: 0 <= k < |p.jobCounts| ==>
      p.jobCounts[k].count == Count(rows, And(Accepts(c), Summary.JobIs(p.jobCounts[k].job)))
    ensures forall i :: 0 <= i < |rows| && Matches(c, rows[i]) ==>
      rows[i].job in Project(p.jobCounts, Summary.KeyOf)
  {
    var v := View(rows, c);
    KeepLength(rows, Accepts(c));
    Summary.JobCountsOfMasked(rows, Accepts(c));
    JobCountsSelected(v, c);
    Page(Summary.Preview(v), Summary.JobCounts(v))
  }

  /** Every job in the frequency table of a view is a selected job. */
  lemma JobCountsSelected(v: seq<Record>, c: Criteria)
    requires forall k :: 0 <= k < |v| ==> v[k].job in c.jobs
    ensures forall k :: 0 <= k < |Summary.JobCounts(v)| ==> Summary.JobCounts(v)[k].job in c.jobs
  {
    var t := Summary.JobCounts(v);
    forall k | 0 <= k < |t| ensures t[k].job in c.jobs {
      var i :| 0 <= i < |v| && Project(v, JobOf)[i] == t[k].job;
    }
  }
}
