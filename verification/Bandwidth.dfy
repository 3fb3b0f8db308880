/** The day-total bandwidth tracker (statuspage.go). */
module Bandwidth {
  import opened GoTypes

  /** Go's `int64(...)` of any whole number: two's complement. */
  function Wrap(x: int): int64 {
    (x + TWO63) % TWO64 - TWO63
  }

  lemma WrapAdds(a: int, b: int)
    ensures Wrap(Wrap(a) + b) == Wrap(a + b) && Wrap(a + Wrap(b)) == Wrap(a + b)
  {
  }

  lemma WrapsOnce(total: int64, moved: nat)
    ensures Wrap(total + Wrap(moved)) == Wrap(total + moved)
  {
    WrapAdds(total, moved);
  }

  datatype Direction = Rx | Tx

  datatype NicCounter = NicCounter(rx: uint64, tx: uint64) {
    function Of(d: Direction): uint64 {
      if d.Rx? then rx else tx
    }
  }

  /** One line of `IOCounters`. */
  datatype Reading = Reading(name: string, counter: NicCounter)

  type Seen = map<string, NicCounter>

  /** The snapshot a list of readings leaves behind; a repeated name keeps its last reading. */
  function Snapshot(readings: seq<Reading>, n: nat): Seen
    requires n <= |readings|
  {
    if n == 0 then map[] else Snapshot(readings, n - 1)[readings[n - 1].name := readings[n - 1].counter]
  }

  /** Forward movement of one interface: nothing if it is new or its counter fell. */
  function Forward(seen: Seen, r: Reading, d: Direction): nat {
    if r.name in seen && r.counter.Of(d) > seen[r.name].Of(d) then r.counter.Of(d) - seen[r.name].Of(d) else 0
  }

  function Moved(seen: Seen, readings: seq<Reading>, n: nat, d: Direction): nat
    requires n <= |readings|
  {
    if n == 0 then 0 else Moved(seen, readings, n - 1, d) + Forward(seen, readings[n - 1], d)
  }

  /** The tracker's fields as a value. */
  datatype Track = Track(day: string, rx: int64, tx: int64, seen: Seen, dirty: bool) {
    function Of(d: Direction): int64 {
      if d.Rx? then rx else tx
    }
  }

  function RolledOver(t: Track, today: string): Track {
    if t.day == today then t else t.(day := today, rx := 0, tx := 0, dirty := true)
  }

  /** One sample, in whole numbers: what `accumulate` leaves behind. */
  function Sampled(t: Track, readings: seq<Reading>, today: string): Track {
    var u := RolledOver(t, today);
    var rx, tx := Moved(t.seen, readings, |readings|, Rx), Moved(t.seen, readings, |readings|, Tx);
    var v := u.(seen := Snapshot(readings, |readings|));
    if Wrap(rx) > 0 || Wrap(tx) > 0 then v.(rx := Wrap(u.rx + rx), tx := Wrap(u.tx + tx), dirty := true) else v
  }

  /** The on-disk record. */
  datatype Record = Record(date: string, rx: int64, tx: int64)
  datatype Stored = Nothing | Stored(record: Record)

  function Snap(t: Track): Record {
    Record(t.day, t.rx, t.tx)
  }

  /** The totals that a start on day `today` takes from what is stored. */
  function Restored(db: Stored, today: string): Record {
    if db.Stored? && db.record.date == today then db.record else Record(today, 0, 0)
  }

  class Tracker {
    var day: string
    var rxToday: int64
    var txToday: int64
    var lastSeen: Seen
    var dirty: bool

    ghost function Value(): Track
      reads this
    {
      Track(day, rxToday, txToday, lastSeen, dirty)
    }

    /** The part of `initDashboardBandwidthTracker` under the lock. */
    constructor (db: Stored, today: string)
      ensures Value() == Track(today, Restored(db, today).rx, Restored(db, today).tx, map[], false)
    {
      day, lastSeen, dirty := today, map[], false;
      rxToday, txToday := 0, 0;
      if db.Stored? && db.record.date == today {
        rxToday, txToday := db.record.rx, db.record.tx;
      }
    }

    method RolloverIfNeeded(today: string)
      modifies this
      ensures Value() == RolledOver(old(Value()), today)
    {
      if day == today {
        return;
      }
      day := today;
      rxToday := 0;
      txToday := 0;
      dirty := true;
    }

    /** The loop over the readings: the new snapshot, and the movement since the last one. */
    method Measure(readings: seq<Reading>) returns (current: Seen, deltaRx: int64, deltaTx: int64)
      ensures current == Snapshot(readings, |readings|)
      ensures deltaRx == Wrap(Moved(lastSeen, readings, |readings|, Rx))
      ensures deltaTx == Wrap(Moved(lastSeen, readings, |readings|, Tx))
    {
      current, deltaRx, deltaTx := map[], 0, 0;
      for i := 0 to |readings|
        invariant current == Snapshot(readings, i)
        invariant deltaRx == Wrap(Moved(lastSeen, readings, i, Rx))
        invariant deltaTx == Wrap(Moved(lastSeen, readings, i, Tx))
      {
        var reading := readings[i].counter;
        current := current[readings[i].name := reading];
        AddForward(lastSeen, readings, i, Rx);
        AddForward(lastSeen, readings, i, Tx);
        if readings[i].name in lastSeen {
          var previous := lastSeen[readings[i].name];
          if reading.rx > previous.rx {
            deltaRx := Wrap(deltaRx + Wrap(reading.rx - previous.rx));
          }
          if reading.tx > previous.tx {
            deltaTx := Wrap(deltaTx + Wrap(reading.tx - previous.tx));
          }
        }
      }
    }

    method Accumulate(readings: seq<Reading>, today: string)
      modifies this
      ensures Value() == Sampled(old(Value()), readings, today)
    {
      RolloverIfNeeded(today);
      var current, deltaRx, deltaTx := Measure(readings);
      WrapsOnce(rxToday, Moved(lastSeen, readings, |readings|, Rx));
      WrapsOnce(txToday, Moved(lastSeen, readings, |readings|, Tx));
      lastSeen := current;
      if deltaRx > 0 || deltaTx > 0 {
        rxToday := Wrap(rxToday + deltaRx);
        txToday := Wrap(txToday + deltaTx);
        dirty := true;
      }
    }

    lemma AddForward(seen: Seen, readings: seq<Reading>, i: nat, d: Direction)
      requires i < |readings|
      ensures Wrap(Wrap(Moved(seen, readings, i, d)) + Wrap(Forward(seen, readings[i], d)))
              == Wrap(Moved(seen, readings, i + 1, d))
    {
      var a, b := Moved(seen, readings, i, d), Forward(seen, readings[i], d);
      WrapAdds(a, b);
      WrapAdds(Wrap(a), b);
    }

    /** The first half of `save`, under the lock: what is to be written, if anything. */
    method BeginSave() returns (pending: Stored)
      modifies `dirty
      ensures Value() == old(Value()).(dirty := false)
      ensures pending == if old(dirty) then Stored(Snap(old(Value()))) else Nothing
    {
      if !dirty {
        return Nothing;
      }
      pending := Stored(Record(day, rxToday, txToday));
      dirty := false;
    }

    /** The second half of `save`, after a write that failed. */
    method FailSave()
      modifies `dirty
      ensures Value() == old(Value()).(dirty := true)
    {
      dirty := true;
    }

    method GetBandwidthToday(today: string) returns (rx: int64, tx: int64)
      modifies this
      ensures Value() == RolledOver(old(Value()), today)
      ensures rx == Value().rx && tx == Value().tx
    {
      RolloverIfNeeded(today);
      rx, tx := rxToday, txToday;
    }
  }
}
