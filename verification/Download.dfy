/**
 Replacing one database file by what MaxMind serves (maxmind/maxmind.go, from download down). The
 servers may answer anything and every step may fail. The digest function and the decoder are
 parameters.
 */
module Download {
  import opened Wrappers
  import opened Disk
  import opened Archives

  // -------------------------------------------------------------------- streams

  /** A body read from the network, in pieces of any size. */
  class Body {
    const data: Bytes
    const broken: bool
    var pos: nat

    ghost predicate Valid()
      reads this
    {
      pos <= |data|
    }

    constructor (data: Bytes, broken: bool)
      ensures Valid() && pos == 0 && this.data == data && this.broken == broken
    {
      this.data, this.broken, pos := data, broken, 0;
    }

    /** At least one byte, or none at the end. */
    method Read() returns (chunk: Bytes)
      requires Valid()
      modifies this
      ensures Valid() && old(pos) <= pos && chunk == data[old(pos)..pos]
      ensures old(pos) < |data| ==> old(pos) < pos
    {
      if pos == |data| {
        return [];
      }
      var n: nat :| pos < n <= |data|;
      chunk := data[pos..n];
      pos := n;
    }
  }

  /** The running checksum: everything written to it, in order. */
  class Sum {
    var fed: Bytes

    constructor ()
      ensures fed == []
    {
      fed := [];
    }

    method Write(chunk: Bytes)
      modifies this
      ensures fed == old(fed) + chunk
    {
      fed := fed + chunk;
    }
  }

  /** Each byte read so far was fed once, in order. */
  ghost predicate InStep(body: Body, sum: Sum)
    reads body, sum
  {
    body.Valid() && sum.fed == body.data[..body.pos]
  }

  /** The events that what was read so far decodes to. */
  ghost function Decoded(decode: Bytes -> seq<Event>, body: Body): seq<Event>
    requires body.Valid()
    reads body
  {
    decode(body.data[..body.pos])
  }

  /** What has been decoded stays, whatever is read after it. */
  lemma DecodesOn(decode: Bytes -> seq<Event>, data: Bytes, p: nat, q: nat)
    requires Streaming(decode) && p <= q <= |data|
    ensures decode(data[..p]) <= decode(data[..q]) <= decode(data)
  {
    assert data[..p] <= data[..q] <= data;
  }

  /** The next event of the decoder, none when the input ends first. Decoding reads on through the
      tee until there is one, in pieces of any size and ahead of what it needs. */
  method NextEvent(disk: Disk, decode: Bytes -> seq<Event>, body: Body, sum: Sum, i: nat) returns (event: Option<Event>)
    requires Streaming(decode) && InStep(body, sum) && i <= |Decoded(decode, body)|
    modifies body, sum, disk`clock
    ensures InStep(body, sum) && disk.clock >= old(disk.clock) && body.pos >= old(body.pos)
    ensures event.Some? ==> i < |Decoded(decode, body)| && event.value == Decoded(decode, body)[i]
    ensures event == None ==> i == |Decoded(decode, body)| && body.pos == |body.data|
  {
    var ahead: nat :| true;
    while body.pos < |body.data| && (i == |decode(body.data[..body.pos])| || ahead > 0)
      invariant InStep(body, sum) && disk.clock >= old(disk.clock) && body.pos >= old(body.pos)
      invariant i <= |Decoded(decode, body)|
      decreases |body.data| - body.pos
    {
      var chunk := body.Read();
      sum.Write(chunk);
      disk.Pass();
      ahead := if ahead > 0 then ahead - 1 else 0;
    }
    var events := decode(body.data[..body.pos]);
    event := if i < |events| then Some(events[i]) else None;
  }

  datatype End = More | AtEnd | Bad

  /** Reads from the current entry: some of its data, and whether the entry ends there or cannot
      be read any further. */
  method ReadEntry(disk: Disk, decode: Bytes -> seq<Event>, body: Body, sum: Sum, i: nat, room: nat)
      returns (chunk: Bytes, end: End)
    requires Streaming(decode) && InStep(body, sum) && i <= |Decoded(decode, body)|
    modifies body, sum, disk`clock
    ensures InStep(body, sum) && disk.clock >= old(disk.clock) && body.pos >= old(body.pos)
    ensures |chunk| <= room && i + |chunk| <= |Decoded(decode, body)|
    ensures forall k | 0 <= k < |chunk| :: Decoded(decode, body)[i + k] == Data(chunk[k])
    ensures end == More ==> chunk != []
    ensures end == AtEnd ==> Content(Decoded(decode, body)[i + |chunk|..], room - |chunk|) == Ok([])
    ensures end == Bad ==> Content(decode(body.data)[i + |chunk|..], room - |chunk|) == Err(CorruptArchive)
  {
    chunk, end := [], AtEnd;
    while |chunk| < room
      invariant InStep(body, sum) && disk.clock >= old(disk.clock) && body.pos >= old(body.pos)
      invariant |chunk| <= room && i + |chunk| <= |Decoded(decode, body)|
      invariant forall k | 0 <= k < |chunk| :: Decoded(decode, body)[i + k] == Data(chunk[k])
    {
      var event := NextEvent(disk, decode, body, sum, i + |chunk|);
      assert body.data[..body.pos] <= body.data;
      if event == Some(EntryEnd) {
        return;
      }
      if event == None || !event.value.Data? {
        assert event == None ==> body.data[..body.pos] == body.data;
        return chunk, Bad;
      }
      chunk := chunk + [event.value.b];
      var enough: bool := *;
      if enough {
        return chunk, More;
      }
    }
  }

  /** Afterwards the checksum was fed the whole body, each byte once and in order. It fails if the
      body is broken. */
  method Drain(disk: Disk, body: Body, sum: Sum) returns (ok: bool)
    requires InStep(body, sum)
    modifies body, sum, disk`clock
    ensures InStep(body, sum) && disk.clock >= old(disk.clock)
    ensures ok <==> !body.broken
    ensures sum.fed == body.data
  {
    while body.pos < |body.data|
      invariant InStep(body, sum) && disk.clock >= old(disk.clock)
      decreases |body.data| - body.pos
    {
      var chunk := body.Read();
      sum.Write(chunk);
      disk.Pass();
    }
    ok := !body.broken;
  }

  // ------------------------------------------------------------ temporary files

  /** now keeps every file that was there before, and has no file at path unless before had. */
  ghost predicate Spares(before: Files, now: Files, path: Path) {
    && (forall p | p in before :: p in now && now[p] == before[p])
    && (path !in before ==> path !in now)
  }

  /** The states on record from the n-th on spare what was there before. */
  ghost predicate SparesSince(past: seq<Files>, n: nat, before: Files, path: Path) {
    forall i | n <= i < |past| :: Spares(before, past[i], path)
  }

  /** No files that were not there before, beyond those a removal failed for since the m-th. */
  ghost predicate NoneLeft(before: Files, now: Files, stuck: seq<Path>, m: nat)
    requires m <= |stuck|
  {
    forall p | p in now && p !in before :: p in stuck[m..]
  }

  /** What was done since is undone: the files are those from before, and no others are left. */
  ghost predicate Undone(before: Files, now: Files, path: Path, stuck: seq<Path>, m: nat) {
    m <= |stuck| && Spares(before, now, path) && NoneLeft(before, now, stuck, m)
  }

  lemma NothingToUndo(files: Files, path: Path, stuck: seq<Path>)
    ensures Undone(files, files, path, stuck, |stuck|)
  {
  }

  /** The one new file is tmp, beside path, with that content. */
  ghost predicate TempHolds(before: Files, now: Files, path: Path, tmp: Path, content: Bytes) {
    && tmp != path && tmp !in before && Spares(before, now, path)
    && tmp in now && now[tmp].content == content
    && forall p | p in now && p !in before :: p == tmp
  }

  /** After a failure the temporary file is gone, unless removing it failed. */
  method Discard(disk: Disk, ghost before: Files, ghost n: nat, ghost m: nat, path: Path, tmp: Path)
    requires disk.Valid() && SparesSince(disk.past, n, before, path) && m <= |disk.stuck|
    requires tmp in disk.files && TempHolds(before, disk.files, path, tmp, disk.files[tmp].content)
    modifies disk`files, disk`clock, disk`past, disk`stuck, disk`faults
    ensures disk.Valid() && disk.clock >= old(disk.clock) && old(disk.stuck) <= disk.stuck
    ensures disk.faults >= old(disk.faults) && (disk.faults == old(disk.faults) ==> disk.stuck == old(disk.stuck))
    ensures |disk.past| >= old(|disk.past|) && SparesSince(disk.past, n, before, path)
    ensures Undone(before, disk.files, path, disk.stuck, m)
  {
    disk.Remove(tmp);
    assert |disk.stuck| > old(|disk.stuck|) ==> disk.stuck[m..][old(|disk.stuck|) - m] == tmp;
  }

  /** Writes one more piece to the temporary file. */
  method AppendTo(disk: Disk, ghost before: Files, ghost n: nat, path: Path, tmp: Path, ghost copied: Bytes,
                  chunk: Bytes)
      returns (ok: bool)
    requires disk.Valid() && TempHolds(before, disk.files, path, tmp, copied)
    requires n <= |disk.past| && SparesSince(disk.past, n, before, path)
    modifies disk`files, disk`clock, disk`past, disk`faults
    ensures disk.Valid() && disk.clock >= old(disk.clock)
    ensures |disk.past| >= old(|disk.past|) && SparesSince(disk.past, n, before, path)
    ensures disk.faults == if ok then old(disk.faults) else old(disk.faults) + 1
    ensures tmp in disk.files && TempHolds(before, disk.files, path, tmp, disk.files[tmp].content)
    ensures ok ==> disk.files[tmp].content == copied + chunk
    ensures disk.files[tmp].mtime >= old(disk.clock)
  {
    ok := disk.Append(tmp, chunk);
    assert Spares(before, disk.files, path);
  }

  /** The data events from first on begin with what was copied. */
  ghost predicate Copied(events: seq<Event>, first: nat, copied: Bytes) {
    && first + |copied| <= |events| && |copied| <= MAX_DATABASE_SIZE
    && forall k | 0 <= k < |copied| :: events[first + k] == Data(copied[k])
  }

  lemma CopyEnds(events: seq<Event>, first: nat, copied: Bytes)
    requires Copied(events, first, copied)
    ensures Content(events[first..], MAX_DATABASE_SIZE) ==
            After(copied, Content(events[first + |copied|..], MAX_DATABASE_SIZE - |copied|))
  {
    hide Content;
    ContentFrom(events[first..], copied, MAX_DATABASE_SIZE);
    assert events[first..][|copied|..] == events[first + |copied|..];
  }

  lemma TempIsThere(before: Files, now: Files, path: Path, tmp: Path, content: Bytes)
    requires TempHolds(before, now, path, tmp, content)
    ensures tmp in now && tmp != path && now[tmp].content == content
  {
  }

  /** Reads on after what was copied of the entry that begins with event first. */
  method ReadOn(disk: Disk, decode: Bytes -> seq<Event>, body: Body, sum: Sum, first: nat, copied: Bytes)
      returns (chunk: Bytes, end: End)
    requires Streaming(decode) && InStep(body, sum) && Copied(Decoded(decode, body), first, copied)
    modifies body, sum, disk`clock
    ensures InStep(body, sum) && disk.clock >= old(disk.clock) && body.pos >= old(body.pos)
    ensures Copied(Decoded(decode, body), first, copied + chunk) && first <= |decode(body.data)|
    ensures end == More ==> chunk != []
    ensures end == AtEnd ==> Content(Decoded(decode, body)[first..], MAX_DATABASE_SIZE) == Ok(copied + chunk)
    ensures end == Bad ==> Content(decode(body.data)[first..], MAX_DATABASE_SIZE) == Err(CorruptArchive)
  {
    hide Content;
    ghost var pos := body.pos;
    chunk, end := ReadEntry(disk, decode, body, sum, first + |copied|, MAX_DATABASE_SIZE - |copied|);
    DecodesOn(decode, body.data, pos, body.pos);
    hide Streaming;
    CopyEnds(if end == Bad then decode(body.data) else Decoded(decode, body), first, copied + chunk);
    assert copied + chunk + [] == copied + chunk;
  }

  /** Copies the entry that begins with event first into the temporary file, in pieces of any
      size. On success the file holds the content of that entry. */
  method CopyTo(disk: Disk, decode: Bytes -> seq<Event>, body: Body, sum: Sum, first: nat,
                ghost before: Files, ghost n: nat, path: Path, tmp: Path)
      returns (err: Option<Error>)
    requires Streaming(decode) && disk.Valid() && InStep(body, sum) && first <= |Decoded(decode, body)|
    requires TempHolds(before, disk.files, path, tmp, []) && n <= |disk.past| && SparesSince(disk.past, n, before, path)
    modifies disk`files, disk`clock, disk`past, disk`faults, body, sum
    ensures disk.Valid() && InStep(body, sum) && disk.clock >= old(disk.clock) && body.pos >= old(body.pos)
    ensures |disk.past| >= old(|disk.past|) && SparesSince(disk.past, n, before, path)
    ensures disk.faults >= old(disk.faults)
    ensures tmp in disk.files && TempHolds(before, disk.files, path, tmp, disk.files[tmp].content)
    ensures first <= |Decoded(decode, body)| && first <= |decode(body.data)|
    ensures err == None ==> Content(Decoded(decode, body)[first..], MAX_DATABASE_SIZE) == Ok(disk.files[tmp].content)
    ensures err.Some? ==> (err.value == FileFailed && disk.faults > old(disk.faults))
                          || Content(decode(body.data)[first..], MAX_DATABASE_SIZE) == Err(err.value)
    ensures disk.files[tmp].mtime >= Min(old(disk.clock), old(disk.files[tmp].mtime))
  {
    hide TempHolds, SparesSince, Content, Streaming;
    var copied: Bytes := [];
    TempIsThere(before, disk.files, path, tmp, []);
    while true
      invariant disk.Valid() && InStep(body, sum) && disk.clock >= old(disk.clock) && body.pos >= old(body.pos)
      invariant Copied(Decoded(decode, body), first, copied)
      invariant tmp in disk.files && disk.files[tmp].content == copied
      invariant TempHolds(before, disk.files, path, tmp, copied)
      invariant disk.files[tmp].mtime >= Min(old(disk.clock), old(disk.files[tmp].mtime))
      invariant |disk.past| >= old(|disk.past|) && SparesSince(disk.past, n, before, path)
      invariant disk.faults == old(disk.faults)
      decreases MAX_DATABASE_SIZE - |copied|
    {
      var chunk, end := ReadOn(disk, decode, body, sum, first, copied);
      if chunk != [] {
        var ok := AppendTo(disk, before, n, path, tmp, copied, chunk);
        if !ok {
          return Some(FileFailed);
        }
      } else {
        assert copied + chunk == copied;
      }
      copied := copied + chunk;
      if end != More {
        return if end == AtEnd then None else Some(CorruptArchive);
      }
    }
  }

  /** An empty file beside path, in a directory that is made if need be. */
  method NewTemp(disk: Disk, path: Path) returns (tmp: Option<Path>)
    requires disk.Valid()
    modifies disk`files, disk`clock, disk`past, disk`faults
    ensures disk.Valid() && disk.clock >= old(disk.clock)
    ensures |disk.past| >= old(|disk.past|) && SparesSince(disk.past, old(|disk.past|), old(disk.files), path)
    ensures disk.faults >= old(disk.faults) && (tmp == None ==> disk.faults > old(disk.faults))
    ensures tmp == None ==> disk.files == old(disk.files)
    ensures tmp.Some? ==> TempHolds(old(disk.files), disk.files, path, tmp.value, [])
    ensures tmp.Some? ==> tmp.value in disk.files && disk.files[tmp.value].mtime >= old(disk.clock)
  {
    var ok := disk.Try();  // the directory
    if !ok {
      return None;
    }
    tmp := disk.CreateTemp(path);
  }

  /** The same, and closes the file and sets its permissions. */
  method Fill(disk: Disk, decode: Bytes -> seq<Event>, body: Body, sum: Sum, first: nat,
              ghost before: Files, ghost n: nat, path: Path, tmp: Path)
      returns (err: Option<Error>)
    requires Streaming(decode) && disk.Valid() && InStep(body, sum) && first <= |Decoded(decode, body)|
    requires TempHolds(before, disk.files, path, tmp, []) && n <= |disk.past| && SparesSince(disk.past, n, before, path)
    modifies disk`files, disk`clock, disk`past, disk`faults, body, sum
    ensures disk.Valid() && InStep(body, sum) && disk.clock >= old(disk.clock) && body.pos >= old(body.pos)
    ensures |disk.past| >= old(|disk.past|) && SparesSince(disk.past, n, before, path)
    ensures disk.faults >= old(disk.faults)
    ensures tmp in disk.files && TempHolds(before, disk.files, path, tmp, disk.files[tmp].content)
    ensures first <= |Decoded(decode, body)| && first <= |decode(body.data)|
    ensures err == None ==> Content(Decoded(decode, body)[first..], MAX_DATABASE_SIZE) == Ok(disk.files[tmp].content)
    ensures err.Some? ==> (err.value == FileFailed && disk.faults > old(disk.faults))
                          || Content(decode(body.data)[first..], MAX_DATABASE_SIZE) == Err(err.value)
    ensures disk.files[tmp].mtime >= Min(old(disk.clock), old(disk.files[tmp].mtime))
  {
    hide TempHolds, SparesSince, Content, Streaming, InStep, Decoded;
    err := CopyTo(disk, decode, body, sum, first, before, n, path, tmp);
    if err == None {
      var ok := disk.Try();  // close
      if ok {
        ok := disk.Try();  // permissions
      }
      err := if ok then None else Some(FileFailed);
    }
  }

  /** Puts the content of the entry that begins with event first into a new file. A failure leaves
      none, and path stays as it is either way. */
  method WriteTemp(disk: Disk, decode: Bytes -> seq<Event>, body: Body, sum: Sum, first: nat, path: Path)
      returns (r: Result<Path, Error>)
    requires Streaming(decode) && disk.Valid() && InStep(body, sum) && first <= |Decoded(decode, body)|
    modifies disk`files, disk`clock, disk`past, disk`stuck, disk`faults, body, sum
    ensures disk.Valid() && InStep(body, sum) && disk.clock >= old(disk.clock) && body.pos >= old(body.pos)
    ensures old(disk.stuck) <= disk.stuck && disk.faults >= old(disk.faults)
    ensures disk.faults == old(disk.faults) ==> disk.stuck == old(disk.stuck)
    ensures |disk.past| >= old(|disk.past|) && SparesSince(disk.past, old(|disk.past|), old(disk.files), path)
    ensures first <= |Decoded(decode, body)| && first <= |decode(body.data)|
    ensures r.Ok? ==> r.value in disk.files && disk.files[r.value].mtime >= old(disk.clock)
    ensures r.Ok? ==> var content := disk.files[r.value].content;
                      && Content(Decoded(decode, body)[first..], MAX_DATABASE_SIZE) == Ok(content)
                      && TempHolds(old(disk.files), disk.files, path, r.value, content)
    ensures r.Err? ==> Undone(old(disk.files), disk.files, path, disk.stuck, old(|disk.stuck|))
    ensures r.Err? ==> (r.error == FileFailed && disk.faults > old(disk.faults))
                       || Content(decode(body.data)[first..], MAX_DATABASE_SIZE) == Err(r.error)
  {
    DecodesOn(decode, body.data, body.pos, body.pos);
    hide Content, TempHolds, SparesSince, Streaming, Undone, Spares, NoneLeft, InStep;
    NothingToUndo(disk.files, path, disk.stuck);
    ghost var before, n, m := disk.files, |disk.past|, |disk.stuck|;
    var tmp := NewTemp(disk, path);
    if tmp == None {
      return Err(FileFailed);
    }
    var err := Fill(disk, decode, body, sum, first, before, n, path, tmp.value);
    if err.Some? {
      Discard(disk, before, n, m, path, tmp.value);
      return Err(err.value);
    }
    r := Ok(tmp.value);
  }

  /** Looks for the header of the first regular entry of that name. */
  method Seek(disk: Disk, decode: Bytes -> seq<Event>, body: Body, sum: Sum, name: string)
      returns (i: nat, err: Option<Error>)
    requires Streaming(decode) && InStep(body, sum)
    modifies disk`clock, body, sum
    ensures InStep(body, sum) && disk.clock >= old(disk.clock)
    ensures err == None ==>
              && i < |Decoded(decode, body)| && PassedOver(Decoded(decode, body), i, name)
              && IsWanted(Decoded(decode, body)[i], name) && Decoded(decode, body)[i].size <= MAX_DATABASE_SIZE
    ensures err.Some? ==> Select(decode(body.data), name) == Err(err.value)
  {
    i := 0;
    assert PassedOver(Decoded(decode, body), 0, name);
    hide Streaming, Select, Content, PassedOver;
    while true
      invariant InStep(body, sum) && disk.clock >= old(disk.clock)
      invariant i <= |Decoded(decode, body)| && PassedOver(Decoded(decode, body), i, name)
      decreases |decode(body.data)| - i
    {
      ghost var pos := body.pos;
      var event := NextEvent(disk, decode, body, sum, i);
      DecodesOn(decode, body.data, pos, body.pos);
      PassedOverStill(decode(body.data[..pos]), Decoded(decode, body), i, name);
      SelectEnds(Decoded(decode, body), decode(body.data), i, name);
      assert event == None ==> body.data[..body.pos] == body.data;
      if event == None || event.value.Corrupt? {
        return i, Some(CorruptArchive);
      }
      if event.value.ArchiveEnd? {
        return i, Some(NotInArchive);
      }
      if IsWanted(event.value, name) {
        return i, if event.value.size > MAX_DATABASE_SIZE then Some(TooLarge) else None;
      }
      PassOver(Decoded(decode, body), i, name);
      i := i + 1;
    }
  }

  /** Finds the first regular entry of that name. What it leaves in a temporary file is decided by
      the bytes read so far; what it reports is what the whole body decides, or a fault. */
  method Extract(disk: Disk, decode: Bytes -> seq<Event>, body: Body, sum: Sum, name: string, path: Path)
      returns (r: Result<Path, Error>)
    requires Streaming(decode) && disk.Valid() && InStep(body, sum)
    modifies disk`files, disk`clock, disk`past, disk`stuck, disk`faults, body, sum
    ensures disk.Valid() && InStep(body, sum) && disk.clock >= old(disk.clock)
    ensures old(disk.stuck) <= disk.stuck && disk.faults >= old(disk.faults)
    ensures disk.faults == old(disk.faults) ==> disk.stuck == old(disk.stuck)
    ensures |disk.past| >= old(|disk.past|) && SparesSince(disk.past, old(|disk.past|), old(disk.files), path)
    ensures r.Ok? ==> r.value in disk.files && disk.files[r.value].mtime >= old(disk.clock)
    ensures r.Ok? ==> var content := disk.files[r.value].content;
                      && Select(Decoded(decode, body), name) == Ok(content)
                      && Select(decode(body.data), name) == Ok(content)
                      && Holds(Decoded(decode, body), name, content) && Holds(decode(body.data), name, content)
                      && TempHolds(old(disk.files), disk.files, path, r.value, content)
    ensures r.Err? ==> Undone(old(disk.files), disk.files, path, disk.stuck, old(|disk.stuck|))
    ensures r.Err? ==> (r.error == FileFailed && disk.faults > old(disk.faults))
                       || Select(decode(body.data), name) == Err(r.error)
  {
    hide TempHolds, Spares, NoneLeft, Undone, Streaming, Select, Content, PassedOver, IsWanted, Holds;
    NothingToUndo(disk.files, path, disk.stuck);
    var i, err := Seek(disk, decode, body, sum, name);
    if err.Some? {
      return Err(err.value);
    }
    ghost var pos := body.pos;
    r := WriteTemp(disk, decode, body, sum, i + 1, path);
    DecodesOn(decode, body.data, pos, body.pos);
    PassedOverStill(decode(body.data[..pos]), Decoded(decode, body), i, name);
    SelectEnds(Decoded(decode, body), decode(body.data), i, name);
    SelectExactly(Decoded(decode, body), name);
    SelectExactly(decode(body.data), name);
  }

  ghost predicate PassedOver(events: seq<Event>, i: nat, name: string) {
    i <= |events| && forall k | 0 <= k < i :: IsPassedOver(events[k], name)
  }

  lemma PassedOverStill(events: seq<Event>, longer: seq<Event>, i: nat, name: string)
    requires events <= longer && PassedOver(events, i, name)
    ensures i <= |events| && PassedOver(longer, i, name)
  {
  }

  lemma PassOver(events: seq<Event>, i: nat, name: string)
    requires PassedOver(events, i, name) && i < |events| && IsPassedOver(events[i], name)
    ensures PassedOver(events, i + 1, name)
  {
  }

  /** What the search comes to, by the event it stops at, for what was read and for the whole. */
  lemma SelectEnds(events: seq<Event>, all: seq<Event>, i: nat, name: string)
    requires events <= all && PassedOver(events, i, name)
    ensures i == |all| ==> Select(all, name) == Err(CorruptArchive)
    ensures i < |events| && events[i].Corrupt? ==> Select(all, name) == Err(CorruptArchive)
    ensures i < |events| && events[i].ArchiveEnd? ==> Select(all, name) == Err(NotInArchive)
    ensures i < |events| && IsWanted(events[i], name) && events[i].size > MAX_DATABASE_SIZE ==>
              Select(all, name) == Err(TooLarge)
    ensures i < |events| && IsWanted(events[i], name) && events[i].size <= MAX_DATABASE_SIZE ==>
              && Select(all, name) == Content(all[i + 1..], MAX_DATABASE_SIZE)
              && Select(events, name) == Content(events[i + 1..], MAX_DATABASE_SIZE)
    ensures Select(events, name).Ok? ==> Select(all, name) == Select(events, name)
  {
    SelectFrom(events, i, name);
    SelectFrom(all, i, name);
    assert i < |events| ==> events[i..][1..] == events[i + 1..] && all[i..][1..] == all[i + 1..];
    if Select(events, name).Ok? {
      SelectIsStable(events, all, name);
    }
  }

  // ------------------------------------------------------------------- download

  /** Whether the digest is the one that is published. */
  method Verify(disk: Disk, digest: string, checksum: Checksum) returns (err: Option<Error>)
    modifies disk`clock
    ensures disk.clock >= old(disk.clock)
    ensures err == None <==> Accepts(digest, checksum)
    ensures err == Mismatch(digest, checksum)
  {
    disk.Pass();
    var want := Published(checksum);
    if want == None {
      return Some(ChecksumFailed);
    }
    err := if EqualFold(digest, want.value) then None else Some(ChecksumMismatch);
  }

  /** Every other file is as before, and path holds what it held or the verified content. */
  ghost predicate Safe(before: Files, now: Files, path: Path, verified: Option<Bytes>) {
    && (forall p | p in before && p != path :: p in now && now[p] == before[p])
    && (ContentAt(now, path) == ContentAt(before, path) || (verified.Some? && ContentAt(now, path) == verified))
  }

  ghost predicate SafeSince(past: seq<Files>, n: nat, before: Files, path: Path, verified: Option<Bytes>) {
    forall i | n <= i < |past| :: Safe(before, past[i], path, verified)
  }

  /** The database of an edition in what the bytes of an archive decode to, if the digest of the
      same bytes, all of them, is the published one. */
  ghost function Verified(hash: Bytes -> string, decode: Bytes -> seq<Event>, edition: string, archive: Archive,
                          checksum: Checksum): Option<Bytes>
  {
    var found := Select(decode(archive.bytes), edition + ".mmdb");
    if !archive.broken && Accepts(hash(archive.bytes), checksum) && found.Ok? then Some(found.value) else None
  }

  lemma VerifiedExactly(hash: Bytes -> string, decode: Bytes -> seq<Event>, edition: string, archive: Archive,
                        checksum: Checksum)
    ensures forall content :: Verified(hash, decode, edition, archive, checksum) == Some(content) <==>
              && Holds(decode(archive.bytes), edition + ".mmdb", content)
              && !archive.broken && Accepts(hash(archive.bytes), checksum)
  {
    hide Select, Holds, Accepts;
    SelectExactly(decode(archive.bytes), edition + ".mmdb");
  }

  lemma SparesIsSafe(past: seq<Files>, n: nat, before: Files, path: Path, verified: Option<Bytes>)
    requires SparesSince(past, n, before, path)
    ensures SafeSince(past, n, before, path, verified)
  {
    forall i | n <= i < |past| ensures Safe(before, past[i], path, verified) {
      assert Spares(before, past[i], path);
    }
  }

  /** What a return leaves: other files as they were, none of the call's own but those whose
      removal failed during it, and at path either the file that was there or a new one with this
      content. */
  ghost predicate Leaves(before: Files, now: Files, path: Path, stuck: seq<Path>, m: nat, content: Option<Bytes>) {
    && m <= |stuck|
    && (forall p | p in before && p != path :: p in now && now[p] == before[p])
    && (forall p | p in now && p !in before && p != path :: p in stuck[m..])
    && if content.Some? then path in now && now[path].content == content.value
       else (path in now <==> path in before) && (path in now ==> now[path] == before[path])
  }

  lemma UndoneLeaves(before: Files, now: Files, path: Path, stuck: seq<Path>, m: nat)
    requires Undone(before, now, path, stuck, m)
    ensures Leaves(before, now, path, stuck, m, None)
  {
  }

  lemma MovedLeaves(before: Files, was: Files, path: Path, tmp: Path, content: Bytes)
    requires TempHolds(before, was, path, tmp, content)
    ensures var now := was[path := was[tmp]] - {tmp};
            && Safe(before, now, path, Some(content))
            && forall stuck, m: nat | m <= |stuck| :: Leaves(before, now, path, stuck, m, Some(content))
  {
  }

  lemma NotMovedLeaves(before: Files, was: Files, path: Path, tmp: Path, content: Bytes)
    requires TempHolds(before, was, path, tmp, content)
    ensures tmp != path && tmp in was
    ensures Safe(before, was, path, Some(content)) && Safe(before, was - {tmp}, path, Some(content))
    ensures forall stuck, m: nat | m <= |stuck| :: Leaves(before, was - {tmp}, path, stuck, m, None)
    ensures forall stuck, m: nat | m <= |stuck| && tmp in stuck[m..] :: Leaves(before, was, path, stuck, m, None)
  {
  }

  /** Moves the temporary file into place, and removes it if that fails. */
  method Install(disk: Disk, ghost before: Files, ghost n: nat, ghost m: nat, path: Path, tmp: Path,
                 ghost content: Bytes)
      returns (moved: bool)
    requires disk.Valid() && n <= |disk.past| && m <= |disk.stuck|
    requires TempHolds(before, disk.files, path, tmp, content) && SafeSince(disk.past, n, before, path, Some(content))
    modifies disk
    ensures disk.Valid() && disk.clock >= old(disk.clock) && |disk.past| >= old(|disk.past|)
    ensures SafeSince(disk.past, n, before, path, Some(content))
    ensures Leaves(before, disk.files, path, disk.stuck, m, if moved then Some(content) else None)
    ensures moved ==> path in disk.files && tmp in old(disk.files)
    ensures moved ==> disk.files[path].mtime == old(disk.files[tmp].mtime)
    ensures disk.renamed == old(disk.renamed) + if moved then [path] else []
    ensures disk.confirmed == old(disk.confirmed) + if moved then [path] else []
    ensures old(disk.stuck) <= disk.stuck && disk.faults >= old(disk.faults)
    ensures disk.faults == old(disk.faults) ==> moved && disk.stuck == old(disk.stuck)
  {
    hide Safe, Leaves, TempHolds;
    ghost var was := disk.files;
    MovedLeaves(before, was, path, tmp, content);
    NotMovedLeaves(before, was, path, tmp, content);
    moved := disk.Rename(tmp, path);
    if moved {
      assert disk.files - {tmp} == disk.files;
    }
    disk.Remove(tmp);
    assert |disk.stuck| > old(|disk.stuck|) ==> disk.stuck[m..][old(|disk.stuck|) - m] == tmp;
  }

  /** Reads what extraction left of the body and compares the digest of all of it. */
  method Check(disk: Disk, hash: Bytes -> string, body: Body, sum: Sum, checksum: Checksum) returns (err: Option<Error>)
    requires InStep(body, sum)
    modifies body, sum, disk`clock
    ensures disk.clock >= old(disk.clock)
    ensures err == if body.broken then Some(ReadFailed) else Mismatch(hash(body.data), checksum)
  {
    var drained := Drain(disk, body, sum);
    if !drained {
      return Some(ReadFailed);
    }
    err := Verify(disk, hash(sum.fed), checksum);
  }

  /** On success a temporary file holds the verified content; on failure there is none. Which it
      is follows from what was served, or there was a fault. */
  method Fetch(disk: Disk, hash: Bytes -> string, decode: Bytes -> seq<Event>, edition: string, path: Path,
               archive: Archive, checksum: Checksum)
      returns (r: Result<Path, Error>)
    requires Streaming(decode) && disk.Valid()
    modifies disk`files, disk`clock, disk`past, disk`stuck, disk`faults
    ensures disk.Valid() && disk.clock >= old(disk.clock)
    ensures |disk.past| >= old(|disk.past|) && SparesSince(disk.past, old(|disk.past|), old(disk.files), path)
    ensures r.Ok? ==> var verified := Verified(hash, decode, edition, archive, checksum);
                      verified.Some? && TempHolds(old(disk.files), disk.files, path, r.value, verified.value)
    ensures r.Ok? ==> r.value in disk.files && old(disk.clock) <= disk.files[r.value].mtime
    ensures r.Err? ==> Undone(old(disk.files), disk.files, path, disk.stuck, old(|disk.stuck|))
    ensures old(disk.stuck) <= disk.stuck && disk.faults >= old(disk.faults)
    ensures disk.faults == old(disk.faults) ==> disk.stuck == old(disk.stuck)
    ensures var refusal := Refusal(hash, decode, edition, true, Served(Archived(archive), checksum));
            && (r.Ok? ==> refusal == None)
            && (r.Err? ==> refusal == Some(r.error) || (r.error == FileFailed && disk.faults > old(disk.faults)))
  {
    hide SparesSince, TempHolds, Undone, Spares, NoneLeft, Streaming, Select, Published, Accepts, Mismatch;
    ghost var before, n, m := disk.files, |disk.past|, |disk.stuck|;
    var body := new Body(archive.bytes, archive.broken);
    var sum := new Sum();
    r := Extract(disk, decode, body, sum, edition + ".mmdb", path);
    if r.Err? {
      return;
    }
    var err := Check(disk, hash, body, sum, checksum);
    if err.Some? {
      Discard(disk, before, n, m, path, r.value);
      r := Err(err.value);
    }
  }

  /** An archive was served: path ends up with its database exactly when there is no error, and
      at every step in between it holds that or what it held. */
  method Replace(disk: Disk, hash: Bytes -> string, decode: Bytes -> seq<Event>, edition: string, path: Path,
                 archive: Archive, checksum: Checksum)
      returns (changed: bool, err: Option<Error>)
    requires Streaming(decode) && disk.Valid()
    modifies disk
    ensures disk.Valid() && disk.clock >= old(disk.clock) && |disk.past| >= old(|disk.past|)
    ensures var verified := Verified(hash, decode, edition, archive, checksum);
            && SafeSince(disk.past, old(|disk.past|), old(disk.files), path, verified)
            && Leaves(old(disk.files), disk.files, path, disk.stuck, old(|disk.stuck|),
                      if err == None then verified else None)
            && (err == None ==> verified.Some?)
    ensures err == None ==> path in disk.files && old(disk.clock) <= disk.files[path].mtime
    ensures disk.renamed == old(disk.renamed) + if err == None then [path] else []
    ensures disk.confirmed == old(disk.confirmed) + if err == None then [path] else []
    ensures changed <==> err in {None, Some(RenameFailed)}
    ensures old(disk.stuck) <= disk.stuck && disk.faults >= old(disk.faults)
    ensures disk.faults == old(disk.faults) ==> disk.stuck == old(disk.stuck)
    ensures var refusal := Refusal(hash, decode, edition, true, Served(Archived(archive), checksum));
            && (err == None ==> refusal == None)
            && (err.Some? ==>
                  err == refusal || (err.value in {FileFailed, RenameFailed} && disk.faults > old(disk.faults)))
  {
    ghost var before, n, m := disk.files, |disk.past|, |disk.stuck|;
    ghost var verified := Verified(hash, decode, edition, archive, checksum);
    RefusalIsNotRename(hash, decode, edition, archive, checksum);
    var fetched := Fetch(disk, hash, decode, edition, path, archive, checksum);
    hide Verified, Refusal, Streaming, TempHolds, Undone, Spares, Safe, Leaves;
    SparesIsSafe(disk.past, n, before, path, verified);
    if fetched.Err? {
      UndoneLeaves(before, disk.files, path, disk.stuck, m);
      return false, Some(fetched.error);
    }
    var moved := Install(disk, before, n, m, path, fetched.value, verified.value);
    return true, if moved then None else Some(RenameFailed);
  }

  lemma RefusalIsNotRename(hash: Bytes -> string, decode: Bytes -> seq<Event>, edition: string, archive: Archive,
                           checksum: Checksum)
    ensures Refusal(hash, decode, edition, true, Served(Archived(archive), checksum)) != Some(RenameFailed)
  {
  }

  /** A stop at any step leaves at path the old database or a verified one; other files are as
      before and, unless removing one failed, no temporary file remains at the end. While every
      operation on the disk works, what was served decides alone, and nothing is left over. */
  method Download(disk: Disk, hash: Bytes -> string, decode: Bytes -> seq<Event>, edition: string, path: Path,
                  served: Served)
      returns (changed: bool, err: Option<Error>)
    requires Streaming(decode) && disk.Valid()
    modifies disk
    ensures disk.Valid() && disk.clock >= old(disk.clock) && |disk.past| >= old(|disk.past|)
    ensures changed <==> served.answer.Archived? && err in {None, Some(RenameFailed)}
    ensures var verified := if served.answer.Archived?
                            then Verified(hash, decode, edition, served.answer.archive, served.checksum) else None;
            && SafeSince(disk.past, old(|disk.past|), old(disk.files), path, verified)
            && (changed && err == None ==> verified.Some?)
            && (changed || err.Some? ==>
                  Leaves(old(disk.files), disk.files, path, disk.stuck, old(|disk.stuck|),
                         if err == None then verified else None))
    ensures changed && err == None ==>
              var archive := served.answer.archive;
              && path in disk.files && Holds(decode(archive.bytes), edition + ".mmdb", disk.files[path].content)
              && !archive.broken && Accepts(hash(archive.bytes), served.checksum)
    ensures !changed && err == None ==>
              path in disk.files && path in old(disk.files) && disk.stuck == old(disk.stuck) &&
              disk.files == old(disk.files)[path := File(old(disk.files)[path].content, disk.files[path].mtime)]
    ensures err == None ==> path in disk.files && old(disk.clock) <= disk.files[path].mtime
    ensures disk.renamed == old(disk.renamed) + if changed && err == None then [path] else []
    ensures disk.confirmed == old(disk.confirmed) + if err == None then [path] else []
    ensures old(disk.stuck) <= disk.stuck && disk.faults >= old(disk.faults)
    ensures disk.faults == old(disk.faults) ==> disk.stuck == old(disk.stuck)
    ensures var refusal := Refusal(hash, decode, edition, path in old(disk.files), served);
            && (err == None ==> refusal == None)
            && (err.Some? ==> err == refusal || disk.faults > old(disk.faults))
  {
    if served.answer.Archived? {
      VerifiedExactly(hash, decode, edition, served.answer.archive, served.checksum);
    }
    hide Holds, Verified, Select, Accepts, Streaming;
    var modified := disk.Stat(path);  // sent as the condition
    disk.Pass();
    match served.answer {
      case Unreachable => return false, Some(RequestFailed);
      case OtherStatus => return false, Some(UnexpectedStatus);
      case NotModified =>
        var touched := disk.Touch(path);
        return false, if touched then None else Some(TouchFailed);
      case Archived(archive) =>
        changed, err := Replace(disk, hash, decode, edition, path, archive, served.checksum);
    }
  }
}
