/**
 The bank-marketing dataset: one record per customer, loaded once and never changed.
 Only the columns the dashboards read are modelled; every other column of a row is
 carried along by the filter unchanged and is not represented here.
 */
module Records {

  datatype Option<+T> = None | Some(value: T)

  /** One row of the dataset. `y` is the outcome column ("yes" when the customer subscribed). */
  datatype Record = Record(
    age: int,
    job: string,
    marital: string,
    education: string,
    contact: string,
    y: string)

  /**
   The loaded table. `hasOutcome` says whether the header carried a `y` column;
   when it did not, the outcome tiles show "N/A" and every record's `y` is meaningless.
   */
  datatype Dataset = Dataset(rows: seq<Record>, hasOutcome: bool)

  // Column accessors, usable as `Record -> ...` values.
  function JobOf(r: Record): string { r.job }
  function MaritalOf(r: Record): string { r.marital }
  function EducationOf(r: Record): string { r.education }
  function ContactOf(r: Record): string { r.contact }

  /** The smallest age of a non-empty table. */
  function MinAge(rows: seq<Record>): (m: int)
    requires |rows| > 0
    ensures forall i :: 0 <= i < |rows| ==> m <= rows[i].age
    ensures exists i :: 0 <= i < |rows| && rows[i].age == m
  {
    if |rows| == 1 then rows[0].age
    else
      var rest := MinAge(rows[1..]);
      assert forall i :: 1 <= i < |rows| ==> rows[i] == rows[1..][i - 1];
      if rows[0].age <= rest then rows[0].age else rest
  }

  /** The largest age of a non-empty table. */
  function MaxAge(rows: seq<Record>): (m: int)
    requires |rows| > 0
    ensures forall i :: 0 <= i < |rows| ==> rows[i].age <= m
    ensures exists i :: 0 <= i < |rows| && rows[i].age == m
  {
    if |rows| == 1 then rows[0].age
    else
      var rest := MaxAge(rows[1..]);
      assert forall i :: 1 <= i < |rows| ==> rows[i] == rows[1..][i - 1];
      if rows[0].age >= rest then rows[0].age else rest
  }

  /**
   The default age range of the slider: the smallest and largest age, as integers.
   On an empty table both are NaN, converting NaN to an integer raises, and there is
   no default.
   */
  function DefaultAgeRange(rows: seq<Record>): (r: Option<(int, int)>)
    ensures r.None? <==> |rows| == 0
    ensures r.Some? ==> r.value.0 <= r.value.1
    ensures r.Some? ==> forall i :: 0 <= i < |rows| ==> r.value.0 <= rows[i].age <= r.value.1
    ensures r.Some? ==> exists i :: 0 <= i < |rows| && rows[i].age == r.value.0
    ensures r.Some? ==> exists i :: 0 <= i < |rows| && rows[i].age == r.value.1
  {
    if |rows| == 0 then None else Some((MinAge(rows), MaxAge(rows)))
  }
}
