/**
 The readers of the two GeoIP databases and how a reload replaces them, as one caller at a time
 sees it (iputil/geo/geo.go). What happens when lookups and reloads overlap is in Reloading.
 */
module Geo {
  import opened Wrappers

  /** How opening a file goes. */
  datatype OpenOutcome = Opens | Fails | FailsWithReader

  /** What opening a file gives. A failed open may still hand back a reader, which then has to
      be closed. */
  datatype Opened<+T> = Opened(reader: Option<T>) | Failed(reader: Option<T>)

  /** The reader in use after a reload: without a new one, the one from before. */
  function InUseAfter<T>(was: Option<T>, got: Opened<T>): Option<T> {
    if got.Opened? then got.reader else was
  }

  /** The reader a reload has to close: the replaced one, or the one of a failed open. */
  function ToClose<T>(was: Option<T>, got: Opened<T>): Option<T> {
    if got.Opened? then was else got.reader
  }

  function Members<T>(r: Option<T>): set<T> {
    if r.Some? then {r.value} else {}
  }

  class Reader {
    const path: string
    var open: bool

    constructor (path: string)
      ensures open && this.path == path
    {
      this.path, open := path, true;
    }

    method Close()
      requires open
      modifies this
      ensures !open
    {
      open := false;
    }
  }

  class Database {
    const cityPath: string
    const asnPath: string
    var city: Option<Reader>
    var asn: Option<Reader>

    ghost function InUse(): set<Reader>
      reads this
    {
      Members(city) + Members(asn)
    }

    /** The readers in use are open, distinct, and each reads the file of its database. */
    ghost predicate Valid()
      reads this, InUse()
    {
      && (city.Some? ==> city.value.open && city.value.path == cityPath && cityPath != "")
      && (asn.Some? ==> asn.value.open && asn.value.path == asnPath && asnPath != "")
      && (city.Some? ==> city != asn)
    }

    /** Nothing is open yet. */
    constructor (cityPath: string, asnPath: string)
      ensures Valid() && InUse() == {}
      ensures this.cityPath == cityPath && this.asnPath == asnPath
    {
      this.cityPath, this.asnPath := cityPath, asnPath;
      city, asn := None, None;
    }

    /** A database is in use exactly when it has a path and its file opened, each reader open and
        for its own file. The error is nil exactly when no file failed to open. */
    static method Open(cityPath: string, asnPath: string, city: OpenOutcome, asn: OpenOutcome)
      returns (d: Database, ok: bool, ghost gotCity: Opened<Reader>, ghost gotASN: Opened<Reader>)
      ensures fresh(d) && d.Valid() && fresh(d.InUse())
      ensures d.cityPath == cityPath && d.asnPath == asnPath
      ensures d.city.Some? <==> cityPath != "" && city.Opens?
      ensures d.asn.Some? <==> asnPath != "" && asn.Opens?
      ensures ok <==> (cityPath == "" || city.Opens?) && (asnPath == "" || asn.Opens?)
    {
      d := new Database(cityPath, asnPath);
      ok, gotCity, gotASN := d.Reload(city, asn);
    }

    /** An empty path opens nothing and is no failure; otherwise there is a reader for that very file
        unless the open failed without one. */
    method OpenReader(path: string, outcome: OpenOutcome) returns (got: Opened<Reader>)
      ensures got.Opened? <==> path == "" || outcome.Opens?
      ensures got.reader.Some? <==> path != "" && !outcome.Fails?
      ensures got.reader.Some? ==> fresh(got.reader.value) && got.reader.value.open && got.reader.value.path == path
    {
      if path == "" {
        return Opened(None);
      }
      if outcome.Fails? {
        return Failed(None);
      }
      var r := new Reader(path);
      got := if outcome.Opens? then Opened(Some(r)) else Failed(Some(r));
    }

    method CloseReader(r: Option<Reader>)
      requires r.Some? ==> r.value.open
      modifies Members(r)
      ensures r.Some? ==> !r.value.open
    {
      if r.Some? {
        r.value.Close();
      }
    }

    /** What opened is in use, and what did not leaves the reader from before. Afterwards, among
        the readers opened now and those in use before, exactly the ones in use are open, so none
        is leaked and none in use is closed; Close demands an open reader, so none is closed
        twice. */
    method Reload(cityOpens: OpenOutcome, asnOpens: OpenOutcome)
      returns (ok: bool, ghost gotCity: Opened<Reader>, ghost gotASN: Opened<Reader>)
      requires Valid()
      modifies this, InUse()
      ensures Valid()
      ensures city == InUseAfter(old(city), gotCity) && asn == InUseAfter(old(asn), gotASN)
      ensures if cityPath == "" then city == None
              else if cityOpens.Opens? then city.Some? && fresh(city.value)
              else city == old(city)
      ensures if asnPath == "" then asn == None
              else if asnOpens.Opens? then asn.Some? && fresh(asn.value)
              else asn == old(asn)
      ensures ok <==> (cityPath == "" || cityOpens.Opens?) && (asnPath == "" || asnOpens.Opens?)
      ensures fresh(Members(gotCity.reader)) && fresh(Members(gotASN.reader))
      ensures forall r | r in Members(gotCity.reader) + Members(gotASN.reader) + old(InUse()) ::
                r.open <==> r in InUse()
    {
      var newCity := OpenReader(cityPath, cityOpens);
      var newASN := OpenReader(asnPath, asnOpens);
      gotCity, gotASN := newCity, newASN;

      var oldCity, oldASN := city, asn;
      if newCity.Opened? {
        city := newCity.reader;
      }
      if newASN.Opened? {
        asn := newASN.reader;
      }

      if newCity.Opened? {
        CloseReader(oldCity);
      } else {
        CloseReader(newCity.reader);
      }
      if newASN.Opened? {
        CloseReader(oldASN);
      } else {
        CloseReader(newASN.reader);
      }
      ok := newCity.Opened? && newASN.Opened?;
    }
  }
}
