/**
 The aggregates both dashboards compute over the filtered view: the conversion
 count and rate, the ten-row preview, and the per-job frequency table.
 */
module Summary {
  import opened Masks
  import opened Records

  /** Number of rows the preview shows (`head(10)`). */
  const PreviewRows: nat := 10

  /** The outcome mask: the customer subscribed. */
  function Converted(r: Record): bool { r.y == "yes" }

  /**
   The "Conversions" tile: the sum of the outcome mask over the view when the table
   has a `y` column, "N/A" (None) otherwise.
   */
  function Conversions(view: seq<Record>, hasOutcome: bool): (n: Option<nat>)
    ensures n.Some? <==> hasOutcome
    ensures n.Some? ==> n.value <= |view|
    ensures n.Some? ==> n.value == |set i | 0 <= i < |view| && view[i].y == "yes"|
    ensures n.Some? ==> (n.value == 0 <==> forall i :: 0 <= i < |view| ==> view[i].y != "yes")
    ensures n.Some? ==> (n.value == |view| <==> forall i :: 0 <= i < |view| ==> view[i].y == "yes")
  {
    if hasOutcome then
      CountZero(view, Converted);
      CountFull(view, Converted);
      CountIsMaskSet(view, Converted);
      assert MaskSet(view, Converted) == set i | 0 <= i < |view| && view[i].y == "yes";
      Some(Count(view, Converted))
    else None
  }

  /**
   What a rate tile shows: the percentage `num / den`, numpy's NaN (the result of
   dividing zero by zero), or "N/A".
   */
  datatype RateTile = Percent(num: nat, den: nat) | NaN | NotAvailable

  /**
   The "Conversion Rate" tile as the dashboard computes it: the conversion count over
   the view length, times 100, with no guard on the length, so an empty view shows NaN.
   */
  function ConversionRateAsWritten(view: seq<Record>, hasOutcome: bool): (t: RateTile)
    ensures t.NotAvailable? <==> !hasOutcome
    ensures t.NaN? <==> hasOutcome && |view| == 0
    ensures t.Percent? ==> t.den == |view| > 0 && t.num <= 100 * t.den
    ensures t.Percent? ==> t.num == 100 * Conversions(view, hasOutcome).value
  {
    if !hasOutcome then NotAvailable
    else if |view| == 0 then NaN
    else Percent(100 * Count(view, Converted), |view|)
  }

  /**
   The "Conversion Rate" tile with the division guarded: an empty view shows "N/A",
   like a table without a `y` column, and the tile is never NaN. A shown rate lies
   in [0, 100], is 0 exactly when nobody converted and 100 exactly when everybody did.
   */
  function ConversionRate(view: seq<Record>, hasOutcome: bool): (t: RateTile)
    ensures !t.NaN?
    ensures t.Percent? <==> hasOutcome && |view| > 0
    ensures t.Percent? ==> t.den == |view| && t.num <= 100 * t.den
    ensures t.Percent? ==> t.num == 100 * Conversions(view, hasOutcome).value
    ensures t.Percent? ==> (t.num == 0 <==> forall i :: 0 <= i < |view| ==> view[i].y != "yes")
    ensures t.Percent? ==> (t.num == 100 * t.den <==> forall i :: 0 <= i < |view| ==> view[i].y == "yes")
  {
    if !hasOutcome || |view| == 0 then NotAvailable
    else
      CountZero(view, Converted);
      CountFull(view, Converted);
      Percent(100 * Count(view, Converted), |view|)
  }

  /** The two tiles agree on every view except the empty one, where only the guarded one avoids NaN. */
  lemma ConversionRateCorrectsEmptyView(view: seq<Record>, hasOutcome: bool)
    ensures |view| > 0 ==> ConversionRate(view, hasOutcome) == ConversionRateAsWritten(view, hasOutcome)
    ensures hasOutcome && |view| == 0 ==>
      ConversionRateAsWritten(view, hasOutcome) == NaN && ConversionRate(view, hasOutcome) == NotAvailable
  {
  }

  /** `head(10)`: the first ten rows of the view, or all of them when there are fewer. */
  function Preview(view: seq<Record>): (p: seq<Record>)
    ensures |p| == if |view| < PreviewRows then |view| else PreviewRows
    ensures p <= view
  {
    if |view| < PreviewRows then view else view[..PreviewRows]
  }

  /** One row of the job frequency table. */
  datatype JobCount = JobCount(job: string, count: nat)

  function KeyOf(e: JobCount): string { e.job }

  /** The mask selecting the rows whose job is `j`. */
  function JobIs(j: string): Record -> bool {
    (r: Record) => r.job == j
  }

  /** Sum of the `count` column of a frequency table. */
  function Total(t: seq<JobCount>): nat {
    if |t| == 0 then 0 else t[0].count + Total(t[1..])
  }

  /** One frequency-table row per key, counting the rows of `view` with that job. */
  function Tally(view: seq<Record>, keys: seq<string>): (t: seq<JobCount>)
    ensures |t| == |keys|
    ensures forall k :: 0 <= k < |t| ==> t[k] == JobCount(keys[k], Count(view, JobIs(keys[k])))
  {
    if |keys| == 0 then []
    else [JobCount(keys[0], Count(view, JobIs(keys[0])))] + Tally(view, keys[1..])
  }

  /**
   The value counts of the job column: one row per distinct job of the view, no job twice,
   every count the number of view rows with that job, every count positive, and the
   counts summing to the length of the view.
   */
  function JobCounts(view: seq<Record>): (t: seq<JobCount>)
    ensures NoDup(Project(t, KeyOf))
    ensures forall k :: 0 <= k < |t| ==> t[k].job in Project(view, JobOf)
    ensures forall i :: 0 <= i < |view| ==> view[i].job in Project(t, KeyOf)
    ensures forall k :: 0 <= k < |t| ==> t[k].count == Count(view, JobIs(t[k].job)) && t[k].count > 0
    ensures Total(t) == |view|
  {
    var keys := Unique(Project(view, JobOf));
    TallyCovers(view, keys);
    Tally(view, keys)
  }

  /** The tally over the distinct jobs of the view has positive counts that cover every row. */
  lemma TallyCovers(view: seq<Record>, keys: seq<string>)
    requires keys == Unique(Project(view, JobOf))
    ensures Project(Tally(view, keys), KeyOf) == keys
    ensures forall k :: 0 <= k < |keys| ==> Tally(view, keys)[k].count > 0
    ensures Total(Tally(view, keys)) == |view|
  {
    var jobs := Project(view, JobOf);
    var t := Tally(view, keys);
    assert Project(t, KeyOf) == keys;
    forall k | 0 <= k < |t| ensures t[k].count > 0 {
      var i :| 0 <= i < |jobs| && jobs[i] == keys[k];
      CountPositive(view, JobIs(keys[k]), i);
    }
    forall i | 0 <= i < |view| ensures view[i].job in keys {
      assert jobs[i] == view[i].job;
    }
    TallyTotal(view, keys);
  }

  /**
   The job table of a masked frame, read against the whole frame: each count is the
   number of frame rows that pass the mask and have that job, and every passing row's
   job is a key.
   */
  lemma JobCountsOfMasked(rows: seq<Record>, p: Record -> bool)
    ensures forall k :: 0 <= k < |JobCounts(Keep(rows, p))| ==>
      JobCounts(Keep(rows, p))[k].count == Count(rows, And(p, JobIs(JobCounts(Keep(rows, p))[k].job)))
    ensures forall i :: 0 <= i < |rows| && p(rows[i]) ==>
      rows[i].job in Project(JobCounts(Keep(rows, p)), KeyOf)
  {
    var v := Keep(rows, p);
    var t := JobCounts(v);
    forall k | 0 <= k < |t| ensures t[k].count == Count(rows, And(p, JobIs(t[k].job))) {
      CountOfKeep(rows, p, JobIs(t[k].job));
    }
    KeepMembers(rows, p);
    forall i | 0 <= i < |rows| && p(rows[i]) ensures rows[i].job in Project(t, KeyOf) {
      var j :| 0 <= j < |v| && v[j] == rows[i];
    }
  }

  /** A mask with a true entry has a positive sum. */
  lemma CountPositive<T>(s: seq<T>, p: T -> bool, i: nat)
    requires i < |s| && p(s[i])
    ensures Count(s, p) > 0
  {
    KeepLength(s, p);
    KeepMembers(s, p);
    assert s[i] in Keep(s, p);
  }

  /** Number of times `j` occurs in `keys`. */
  function Occurrences(keys: seq<string>, j: string): nat {
    if |keys| == 0 then 0 else (if keys[0] == j then 1 else 0) + Occurrences(keys[1..], j)
  }

  /** A key listed once among distinct keys occurs exactly once. */
  lemma {:induction false} OccursOnce(keys: seq<string>, j: string)
    requires NoDup(keys) && j in keys
    ensures Occurrences(keys, j) == 1
  {
    if keys[0] == j {
      OccursNot(keys[1..], j);
    } else {
      OccursOnce(keys[1..], j);
    }
  }

  lemma {:induction false} OccursNot(keys: seq<string>, j: string)
    requires j !in keys
    ensures Occurrences(keys, j) == 0
  {
    if |keys| > 0 {
      OccursNot(keys[1..], j);
    }
  }

  /** Tallying no rows gives zero counts. */
  lemma {:induction false} TallyEmpty(keys: seq<string>)
    ensures Total(Tally([], keys)) == 0
  {
    if |keys| > 0 {
      TallyEmpty(keys[1..]);
    }
  }

  /** Adding a row to the front adds one per key equal to its job. */
  lemma {:induction false} TallyCons(r: Record, rest: seq<Record>, keys: seq<string>)
    ensures Total(Tally([r] + rest, keys)) == Occurrences(keys, r.job) + Total(Tally(rest, keys))
  {
    if |keys| > 0 {
      TallyCons(r, rest, keys[1..]);
      assert ([r] + rest)[1..] == rest;
    }
  }

  /** Tallying over distinct keys that cover every job of the view accounts for every row once. */
  lemma {:induction false} TallyTotal(view: seq<Record>, keys: seq<string>)
    requires NoDup(keys)
    requires forall i :: 0 <= i < |view| ==> view[i].job in keys
    ensures Total(Tally(view, keys)) == |view|
  {
    if |view| == 0 {
      TallyEmpty(keys);
    } else {
      var rest := view[1..];
      assert view == [view[0]] + rest;
      assert forall i :: 0 <= i < |rest| ==> rest[i] == view[i + 1];
      TallyTotal(rest, keys);
      TallyCons(view[0], rest, keys);
      OccursOnce(keys, view[0].job);
    }
  }
}
