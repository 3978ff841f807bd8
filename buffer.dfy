/** The per-device buffer: whether the device is streaming now, and the table of its
    recent samples. The methods replace the table by a new value computed from the old
    one, exactly when that computation succeeds. */
module Buffer {
  import opened Frames

  /** The value held by one buffer. */
  datatype Entry = Entry(active: bool, data: Frame)

  class Connection {
    var active: bool
    var recentData: Frame

    ghost predicate Valid()
      reads this
    {
      WellFormed(recentData)
    }

    /** The buffer as a value. */
    function Value(): Entry
      reads this
    {
      Entry(active, recentData)
    }

    /** A new buffer belongs to no streaming device and holds a table with no columns. */
    constructor ()
      ensures Valid() && !active
      ensures recentData.rows == [] && recentData.columns == [] && !recentData.timed
    {
      active := false;
      recentData := Empty();
    }

    /** The samples held, a well-formed table. */
    function RecentData(): (f: Frame)
      reads this
      requires Valid()
      ensures WellFormed(f) && f == recentData
    {
      recentData
    }

    /** Empties the table; the streaming flag is not touched. */
    method ResetRecentData()
      modifies this
      ensures Valid() && active == old(active)
      ensures recentData.rows == [] && recentData.columns == [] && !recentData.timed
    {
      recentData := Empty();
    }

    /** Appends a batch below the rows held, widening the table to the union of both
        column sets. All or nothing: on a schema mismatch the table is left as it was. */
    method AppendData(newData: Frame) returns (r: Result<()>)
      requires Valid() && WellFormed(newData)
      modifies this
      ensures Valid() && active == old(active)
      ensures r.Err? <==> !Compatible(old(recentData).columns, newData.columns)
      ensures r.Err? ==> r.error == SchemaMismatch && recentData == old(recentData)
      ensures r.Ok? ==> recentData == Concat(old(recentData), newData).value
      ensures r.Ok? ==> |recentData.rows| == |old(recentData).rows| + |newData.rows|
    {
      var joined := Concat(recentData, newData);
      if joined.Err? {
        return Err(joined.error);
      }
      recentData := joined.value;
      return Ok(());
    }

    /** Keeps the rows whose time is strictly greater than the newest time minus `d`. A
        table with no time column cannot be filtered: the error is returned and the table
        is left as it was. */
    method DiscardOlderThan(d: int) returns (r: Result<()>)
      requires Valid()
      modifies this
      ensures Valid() && active == old(active)
      ensures r.Err? <==> !old(recentData).timed
      ensures r.Err? ==> r.error == ColumnNotFound && recentData == old(recentData)
      ensures r.Ok? ==> recentData == Trim(old(recentData), d).value
      ensures r.Ok? ==> recentData.columns == old(recentData).columns
    {
      var kept := Trim(recentData, d);
      if kept.Err? {
        return Err(kept.error);
      }
      recentData := kept.value;
      return Ok(());
    }
  }
}
