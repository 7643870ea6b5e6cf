/**
 The five-widget dashboard (streamlit_app.py): an age-range slider and four
 multiselects (job, marital status, education, contact type) filter the dataset;
 the page then shows summary tiles, a ten-row preview and a job frequency table.

 One run of the script is one call of `Render` on the dataset and the widget values.
 */
module Dashboard {
  import opened Masks
  import opened Records
  import Summary

  /**
   The widget values: the inclusive age range `[lo, hi]` and the accepted values of
   each categorical column (a multiselect returns a list).
   */
  datatype Criteria = Criteria(
    lo: int,
    hi: int,
    jobs: seq<string>,
    maritals: seq<string>,
    educations: seq<string>,
    contacts: seq<string>)

  /** The conjunction of the six column predicates for one row. */
  predicate Matches(c: Criteria, r: Record) {
    && r.age >= c.lo
    && r.age <= c.hi
    && r.job in c.jobs
    && r.marital in c.maritals
    && r.education in c.educations
    && r.contact in c.contacts
  }

  /** The row mask as a value. */
  function Accepts(c: Criteria): Record -> bool {
    (r: Record) => Matches(c, r)
  }

  /**
   The filtered view `df[mask]`. Every kept row satisfies all six predicates, every row
   that satisfies them is kept, and every dataset row missing from the view violates at
   least one of them.
   */
  function View(rows: seq<Record>, c: Criteria): (v: seq<Record>)
    ensures |v| <= |rows|
    ensures forall k :: 0 <= k < |v| ==>
      && c.lo <= v[k].age <= c.hi
      && v[k].job in c.jobs
      && v[k].marital in c.maritals
      && v[k].education in c.educations
      && v[k].contact in c.contacts
    ensures forall k :: 0 <= k < |v| ==> v[k] in rows
    ensures forall i :: 0 <= i < |rows| && rows[i] !in v ==>
      || rows[i].age < c.lo
      || rows[i].age > c.hi
      || rows[i].job !in c.jobs
      || rows[i].marital !in c.maritals
      || rows[i].education !in c.educations
      || rows[i].contact !in c.contacts
  {
    KeepMembers(rows, Accepts(c));
    Keep(rows, Accepts(c))
  }

  /**
   The view is an order-preserving subsequence of the dataset: the index it keeps lists,
   in increasing order, exactly the positions whose row matches, and its `k`-th row is
   the dataset row at the `k`-th kept position.
   */
  lemma ViewIsMaskedSubsequence(rows: seq<Record>, c: Criteria)
    ensures |Positions(rows, Accepts(c))| == |View(rows, c)|
    ensures Increasing(Positions(rows, Accepts(c)))
    ensures forall k :: 0 <= k < |View(rows, c)| ==>
      Positions(rows, Accepts(c))[k] < |rows| && rows[Positions(rows, Accepts(c))[k]] == View(rows, c)[k]
    ensures forall i :: 0 <= i < |rows| ==> (i in Positions(rows, Accepts(c)) <==> Matches(c, rows[i]))
  {
    PositionsExact(rows, Accepts(c));
  }

  /** Each row of the dataset appears in the view exactly as often as in the dataset when it matches, and never otherwise. */
  lemma ViewMultiplicity(rows: seq<Record>, c: Criteria, r: Record)
    ensures multiset(View(rows, c))[r] == if Matches(c, r) then multiset(rows)[r] else 0
  {
    KeepMultiset(rows, Accepts(c), r);
  }

  /** The default widget values: the full age range and every distinct value of each column. */
  function DefaultCriteria(rows: seq<Record>): (c: Option<Criteria>)
    ensures c.None? <==> |rows| == 0
    ensures c.Some? ==> forall i :: 0 <= i < |rows| ==> c.value.lo <= rows[i].age <= c.value.hi
    ensures c.Some? ==> exists i :: 0 <= i < |rows| && rows[i].age == c.value.lo
    ensures c.Some? ==> exists i :: 0 <= i < |rows| && rows[i].age == c.value.hi
    ensures c.Some? ==> forall i :: 0 <= i < |rows| ==>
      && rows[i].job in c.value.jobs
      && rows[i].marital in c.value.maritals
      && rows[i].education in c.value.educations
      && rows[i].contact in c.value.contacts
    ensures c.Some? ==> forall k :: 0 <= k < |c.value.jobs| ==> c.value.jobs[k] in Project(rows, JobOf)
    ensures c.Some? ==> forall k :: 0 <= k < |c.value.maritals| ==> c.value.maritals[k] in Project(rows, MaritalOf)
    ensures c.Some? ==> forall k :: 0 <= k < |c.value.educations| ==> c.value.educations[k] in Project(rows, EducationOf)
    ensures c.Some? ==> forall k :: 0 <= k < |c.value.contacts| ==> c.value.contacts[k] in Project(rows, ContactOf)
    ensures c.Some? ==> NoDup(c.value.jobs) && NoDup(c.value.maritals)
                        && NoDup(c.value.educations) && NoDup(c.value.contacts)
  {
    match DefaultAgeRange(rows)
    case None => None
    case Some(range) =>
      ColumnsCovered(rows);
      Some(Criteria(
        range.0,
        range.1,
        Unique(Project(rows, JobOf)),
        Unique(Project(rows, MaritalOf)),
        Unique(Project(rows, EducationOf)),
        Unique(Project(rows, ContactOf))))
  }

  /** Every row's value is among the distinct values of its column. */
  lemma ColumnsCovered(rows: seq<Record>)
    ensures forall i :: 0 <= i < |rows| ==>
      && rows[i].job in Unique(Project(rows, JobOf))
      && rows[i].marital in Unique(Project(rows, MaritalOf))
      && rows[i].education in Unique(Project(rows, EducationOf))
      && rows[i].contact in Unique(Project(rows, ContactOf))
  {
    forall i | 0 <= i < |rows| ensures rows[i].job in Unique(Project(rows, JobOf)) {
      assert Project(rows, JobOf)[i] == rows[i].job;
    }
    forall i | 0 <= i < |rows| ensures rows[i].marital in Unique(Project(rows, MaritalOf)) {
      assert Project(rows, MaritalOf)[i] == rows[i].marital;
    }
    forall i | 0 <= i < |rows| ensures rows[i].education in Unique(Project(rows, EducationOf)) {
      assert Project(rows, EducationOf)[i] == rows[i].education;
    }
    forall i | 0 <= i < |rows| ensures rows[i].contact in Unique(Project(rows, ContactOf)) {
      assert Project(rows, ContactOf)[i] == rows[i].contact;
    }
  }

  /** The criteria accept every row of the dataset. */
  predicate Covers(c: Criteria, rows: seq<Record>) {
    forall i :: 0 <= i < |rows| ==> Matches(c, rows[i])
  }

  /** The view is the whole dataset exactly when the criteria accept every row. */
  lemma ViewIsDatasetIff(rows: seq<Record>, c: Criteria)
    ensures View(rows, c) == rows <==> Covers(c, rows)
  {
    KeepAll(rows, Accepts(c));
  }

  /** With the default widget values the view is the whole dataset (and there are none for an empty one). */
  lemma DefaultViewIsDataset(rows: seq<Record>)
    ensures DefaultCriteria(rows).None? ==> rows == []
    ensures DefaultCriteria(rows).Some? ==> View(rows, DefaultCriteria(rows).value) == rows
  {
    if |rows| > 0 {
      ViewIsDatasetIff(rows, DefaultCriteria(rows).value);
    }
  }

  /** The view is empty exactly when no row matches. */
  lemma ViewEmptyIff(rows: seq<Record>, c: Criteria)
    ensures View(rows, c) == [] <==> forall i :: 0 <= i < |rows| ==> !Matches(c, rows[i])
  {
    KeepNone(rows, Accepts(c));
  }

  /** An empty multiselect excludes every row, and so does an inverted age range. */
  lemma EmptySelectionEmptiesView(rows: seq<Record>, c: Criteria)
    requires c.jobs == [] || c.maritals == [] || c.educations == [] || c.contacts == [] || c.lo > c.hi
    ensures View(rows, c) == []
  {
    ViewEmptyIff(rows, c);
  }

  /** Filtering the view again with the same widget values returns the same view. */
  lemma ViewIdempotent(rows: seq<Record>, c: Criteria)
    ensures View(View(rows, c), c) == View(rows, c)
  {
    KeepIdempotent(rows, Accepts(c));
  }

  /** What one run of the dashboard shows. */
  datatype Page = Page(
    totalCustomers: nat,
    conversionRate: Summary.RateTile,
    conversions: Option<nat>,
    preview: seq<Record>,
    jobCounts: seq<Summary.JobCount>)

  /**
   One run of the dashboard on the loaded table and the widget values. The
   "Total Customers" tile is the number of matching dataset rows, the conversions are
   the matching rows whose outcome is "yes", the rate is 100 times the conversions over
   the total, the preview is the first (at most ten) rows of the view, and the job table
   lists each job of a matching row once, with the number of matching rows that have it.
   The rate tile is the guarded one: on an empty view it shows "N/A" where the script
   shows NaN, and on every other view it shows what the script shows.
   */
  function Render(data: Dataset, c: Criteria): (p: Page)
    ensures p.totalCustomers == |View(data.rows, c)| == Count(data.rows, Accepts(c))
    ensures p.totalCustomers <= |data.rows|
    ensures p.conversions.Some? <==> data.hasOutcome
    ensures p.conversions.Some? ==>
      p.conversions.value == Count(data.rows, And(Accepts(c), Summary.Converted))
    ensures p.conversionRate.Percent? <==> data.hasOutcome && p.totalCustomers > 0
    ensures p.conversionRate.Percent? ==>
      p.conversionRate.den == p.totalCustomers && p.conversionRate.num <= 100 * p.conversionRate.den
    ensures p.conversionRate.Percent? ==> p.conversionRate.num == 100 * p.conversions.value
    ensures data.hasOutcome && p.totalCustomers == 0 ==> p.conversionRate == Summary.NotAvailable
    ensures p.totalCustomers > 0 ==>
      p.conversionRate == Summary.ConversionRateAsWritten(View(data.rows, c), data.hasOutcome)
    ensures p.preview <= View(data.rows, c)
    ensures |p.preview| == if p.totalCustomers < Summary.PreviewRows then p.totalCustomers else Summary.PreviewRows
    ensures Summary.Total(p.jobCounts) == p.totalCustomers
    ensures NoDup(Project(p.jobCounts, Summary.KeyOf))
    ensures forall k :: 0 <= k < |p.jobCounts| ==>
      p.jobCounts[k].count == Count(data.rows, And(Accepts(c), Summary.JobIs(p.jobCounts[k].job)))
      && p.jobCounts[k].count > 0
    ensures forall i :: 0 <= i < |data.rows| && Matches(c, data.rows[i]) ==>
      data.rows[i].job in Project(p.jobCounts, Summary.KeyOf)
  {
    var v := View(data.rows, c);
    KeepLength(data.rows, Accepts(c));
    CountOfKeep(data.rows, Accepts(c), Summary.Converted);
    Summary.JobCountsOfMasked(data.rows, Accepts(c));
    Page(
      |v|,
      Summary.ConversionRate(v, data.hasOutcome),
      Summary.Conversions(v, data.hasOutcome),
      Summary.Preview(v),
      Summary.JobCounts(v))
  }

  /**
   As the script is written, a selection that matches no row (an empty multiselect,
   for one) makes the "Conversion Rate" tile show NaN; the guarded tile shows "N/A".
   */
  lemma EmptySelectionShowsNaN(data: Dataset, c: Criteria)
    requires data.hasOutcome
    requires c.jobs == [] || c.maritals == [] || c.educations == [] || c.contacts == []
    ensures Summary.ConversionRateAsWritten(View(data.rows, c), data.hasOutcome) == Summary.NaN
    ensures Render(data, c).conversionRate == Summary.NotAvailable
  {
    EmptySelectionEmptiesView(data.rows, c);
  }
}
