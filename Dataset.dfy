/** One row of the Boston crime-incident table, as the dashboard and the
    training script read it. `None` is a missing cell (NaN in the table). */
module Dataset {
  import opened Common

  datatype Incident = Incident(
    district: Option<string>,
    day: Option<string>,
    hour: Option<int>,
    offense: Option<string>,
    year: Option<int>,
    month: Option<int>,
    lat: Option<real>,
    long: Option<real>)

  /** The fixed weekday names, in the order the dashboard shows them. */
  const DAY_ORDER: seq<string> := ["Monday", "Tuesday", "Wednesday", "Thursday", "Friday", "Saturday", "Sunday"]
}
