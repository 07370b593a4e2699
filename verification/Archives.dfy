/**
 What MaxMind serves and what may be taken of it (maxmind/maxmind.go): the named database in what an
 archive decodes to, and the checksum in the file beside it. The decoder is a parameter that turns
 the bytes it was given so far into events.
 */
module Archives {
  import opened Wrappers
  import opened Disk

  // ------------------------------------------------------------- what is served

  const MAX_DATABASE_SIZE: nat := 0x2000_0000
  const MAX_CHECKSUM_SIZE: nat := 1024

  /** What comes out of a gzip and tar decoder, in order. */
  datatype Event =
    | Header(regular: bool, base: string, size: int)
    | Data(b: byte)
    | EntryEnd
    | ArchiveEnd
    | Corrupt

  /** A decoder goes on from where it was: more bytes add events and change none. */
  ghost predicate Streaming(decode: Bytes -> seq<Event>) {
    decode([]) == [] && forall p, q | p <= q :: decode(p) <= decode(q)
  }

  /** A response body. A broken one ends in a read error. */
  datatype Archive = Archive(bytes: Bytes, broken: bool)

  datatype Answer = Unreachable | NotModified | Archived(archive: Archive) | OtherStatus

  /** The answer to the request for the checksum. */
  datatype Checksum = NoChecksum | ChecksumBody(text: string, broken: bool)

  /** What the servers give for one edition: the archive, and then what its checksum is to be. */
  datatype Served = Served(answer: Answer, checksum: Checksum)

  datatype Error =
    | RequestFailed | UnexpectedStatus | TouchFailed | CorruptArchive | NotInArchive | TooLarge
    | FileFailed | ReadFailed | ChecksumFailed | ChecksumMismatch | RenameFailed

  // ---------------------------------------------------------- the named database

  predicate IsWanted(e: Event, name: string) {
    e.Header? && e.regular && e.base == name
  }

  /** Looking for the database goes on after this event. */
  predicate IsPassedOver(e: Event, name: string) {
    !e.Corrupt? && !e.ArchiveEnd? && !IsWanted(e, name)
  }

  /** The content of the first regular entry of that name, cut at the size limit. Events that end
      too early are those of a corrupt archive. */
  function Select(events: seq<Event>, name: string): (found: Result<Bytes, Error>)
    ensures found.Err? ==> found.error in {CorruptArchive, NotInArchive, TooLarge}
  {
    if events == [] || events[0].Corrupt? then Err(CorruptArchive)
    else if events[0].ArchiveEnd? then Err(NotInArchive)
    else if !IsWanted(events[0], name) then Select(events[1..], name)
    else if events[0].size > MAX_DATABASE_SIZE then Err(TooLarge)
    else Content(events[1..], MAX_DATABASE_SIZE)
  }

  /** The data up to the end of an entry, or as much of it as there is room for. */
  function Content(events: seq<Event>, room: nat): (content: Result<Bytes, Error>)
    ensures content.Err? ==> content.error == CorruptArchive
    decreases events
  {
    if room == 0 then Ok([])
    else if events == [] then Err(CorruptArchive)
    else match events[0]
      case EntryEnd => Ok([])
      case Data(b) => After([b], Content(events[1..], room - 1))
      case _ => Err(CorruptArchive)
  }

  function After(first: Bytes, rest: Result<Bytes, Error>): Result<Bytes, Error> {
    if rest.Ok? then Ok(first + rest.value) else rest
  }

  lemma {:induction false} SelectFrom(events: seq<Event>, i: nat, name: string)
    requires i <= |events| && forall k | 0 <= k < i :: IsPassedOver(events[k], name)
    ensures Select(events, name) == Select(events[i..], name)
  {
    if i == 0 {
      assert events[0..] == events;
    } else {
      SelectFrom(events[1..], i - 1, name);
      assert events[1..][i - 1..] == events[i..];
    }
  }

  lemma {:induction false} ContentFrom(events: seq<Event>, copied: Bytes, room: nat)
    requires |copied| <= |events| && |copied| <= room
    requires forall k | 0 <= k < |copied| :: events[k] == Data(copied[k])
    ensures Content(events, room) == After(copied, Content(events[|copied|..], room - |copied|))
  {
    if copied == [] {
      assert events[0..] == events;
      assert forall rest: Bytes :: [] + rest == rest;
    } else {
      ContentFrom(events[1..], copied[1..], room - 1);
      assert events[1..][|copied| - 1..] == events[|copied|..];
      assert forall rest: Bytes :: [copied[0]] + (copied[1..] + rest) == copied + rest;
    }
  }

  /** Once the content of an entry is complete, later events do not change it. */
  lemma {:induction false} ContentIsStable(events: seq<Event>, longer: seq<Event>, room: nat)
    requires events <= longer && Content(events, room).Ok?
    ensures Content(longer, room) == Content(events, room)
  {
    if room == 0 || events[0].EntryEnd? {
    } else {
      ContentIsStable(events[1..], longer[1..], room - 1);
    }
  }

  /** What is found in the events of a part is what is found in those of the whole. */
  lemma {:induction false} SelectIsStable(events: seq<Event>, longer: seq<Event>, name: string)
    requires events <= longer && Select(events, name).Ok?
    ensures Select(longer, name) == Select(events, name)
  {
    if IsWanted(events[0], name) {
      hide Content;
      ContentIsStable(events[1..], longer[1..], MAX_DATABASE_SIZE);
    } else {
      SelectIsStable(events[1..], longer[1..], name);
    }
  }

  // ----------------------------------------------- what is found, and what is not

  /** The events have neither ended nor come to a regular entry of that name. */
  predicate StillLooking(e: Event, name: string) {
    match e
    case Header(regular, base, _) => !regular || base != name
    case Data(_) => true
    case EntryEnd => true
    case ArchiveEnd => false
    case Corrupt => false
  }

  /** The i-th event is the header of the first regular entry of that name, with that size. */
  ghost predicate IsFirstEntry(events: seq<Event>, name: string, i: nat, size: int) {
    && i < |events| && events[i] == Header(true, name, size)
    && forall k | 0 <= k < i :: StillLooking(events[k], name)
  }

  /** The events begin with this data, to the end of the entry or to the limit. */
  ghost predicate BeginWith(events: seq<Event>, content: Bytes, limit: nat) {
    && |content| <= limit && |content| <= |events|
    && (forall k | 0 <= k < |content| :: events[k] == Data(content[k]))
    && (|content| == limit || (|content| < |events| && events[|content|] == EntryEnd))
  }

  /** The first regular entry of that name, of 512 MiB at most, has this content. */
  ghost predicate Holds(events: seq<Event>, name: string, content: Bytes) {
    exists i, size ::
      && IsFirstEntry(events, name, i, size) && size <= 0x2000_0000
      && BeginWith(events[i + 1..], content, 0x2000_0000)
  }

  lemma {:induction false} ContentExactly(events: seq<Event>, room: nat, content: Bytes)
    ensures Content(events, room) == Ok(content) <==> BeginWith(events, content, room)
    decreases events
  {
    if room == 0 || events == [] || !events[0].Data? {
    } else {
      var rest := Content(events[1..], room - 1);
      if content == [] {
      } else {
        assert content == [content[0]] + content[1..];
        ContentExactly(events[1..], room - 1, content[1..]);
        if BeginWith(events, content, room) {
          assert BeginWith(events[1..], content[1..], room - 1);
        }
        if BeginWith(events[1..], content[1..], room - 1) && events[0] == Data(content[0]) {
          forall k | 0 <= k < |content| ensures events[k] == Data(content[k]) {
            assert k > 0 ==> events[1..][k - 1] == Data(content[1..][k - 1]);
          }
        }
        if Content(events, room) == Ok(content) {
          assert [events[0].b] + rest.value == content;
          assert rest.value == content[1..];
        }
      }
    }
  }

  lemma {:induction false} FirstDecisive(events: seq<Event>, name: string) returns (i: nat)
    ensures i <= |events| && forall k | 0 <= k < i :: StillLooking(events[k], name)
    ensures i < |events| ==> !StillLooking(events[i], name)
  {
    if events == [] || !StillLooking(events[0], name) {
      i := 0;
    } else {
      var j := FirstDecisive(events[1..], name);
      i := j + 1;
      assert forall k | 0 < k < i :: events[k] == events[1..][k - 1];
    }
  }

  /** What is selected, in terms of headers alone, and when there is nothing to select. */
  lemma SelectExactly(events: seq<Event>, name: string)
    ensures forall content :: Select(events, name) == Ok(content) <==> Holds(events, name, content)
    ensures Select(events, name) == Err(TooLarge) <==>
            exists i, size :: IsFirstEntry(events, name, i, size) && size > 0x2000_0000
    ensures Select(events, name) == Err(NotInArchive) <==>
            exists i | 0 <= i < |events| ::
              events[i] == ArchiveEnd && forall k | 0 <= k < i :: StillLooking(events[k], name)
  {
    hide Select, Content;
    var i := FirstDecisive(events, name);
    SelectAt(events, name, i);
    assert forall j, size | IsFirstEntry(events, name, j, size) :: j == i;
    assert forall j | 0 <= j < |events| && events[j] == ArchiveEnd
                      && (forall k | 0 <= k < j :: StillLooking(events[k], name)) :: j == i;
    if i < |events| && events[i].Header? {
      forall content ensures Content(events[i + 1..], MAX_DATABASE_SIZE) == Ok(content) <==>
                             BeginWith(events[i + 1..], content, 0x2000_0000)
      {
        ContentExactly(events[i + 1..], MAX_DATABASE_SIZE, content);
      }
      assert IsFirstEntry(events, name, i, events[i].size);
    }
  }

  lemma SelectAt(events: seq<Event>, name: string, i: nat)
    requires i <= |events| && forall k | 0 <= k < i :: StillLooking(events[k], name)
    requires i < |events| ==> !StillLooking(events[i], name)
    ensures Select(events, name) ==
            if i == |events| || events[i].Corrupt? then Err(CorruptArchive)
            else if events[i].ArchiveEnd? then Err(NotInArchive)
            else if events[i].Header? && events[i].size <= MAX_DATABASE_SIZE
            then Content(events[i + 1..], MAX_DATABASE_SIZE)
            else Err(TooLarge)
    ensures i < |events| && events[i].Header? ==> events[i].regular && events[i].base == name
  {
    hide Content;
    SelectFrom(events, i, name);
    assert i < |events| ==> events[i..][0] == events[i] && events[i..][1..] == events[i + 1..];
  }

  // -------------------------------------------------------------- the checksum

  predicate IsSpace(c: char) {
    c in {' ', '\t', '\n', '\r', 0x0b as char, 0x0c as char}
  }

  function TrimLeft(s: string): (t: string)
    ensures t == [] || !IsSpace(t[0])
  {
    if s != [] && IsSpace(s[0]) then TrimLeft(s[1..]) else s
  }

  function TrimRight(s: string): string {
    if s != [] && IsSpace(s[|s| - 1]) then TrimRight(s[..|s| - 1]) else s
  }

  /** Up to the first blank. */
  function FirstWord(s: string): string {
    if s == [] || s[0] == ' ' then [] else [s[0]] + FirstWord(s[1..])
  }

  function Lower(c: char): char {
    if 'A' <= c <= 'Z' then (c as int + 32) as char else c
  }

  predicate EqualFold(s: string, t: string) {
    |s| == |t| && forall i | 0 <= i < |s| :: Lower(s[i]) == Lower(t[i])
  }

  /** The checksum to compare with: the first word of the body, of which only so much is read. */
  function Published(c: Checksum): Option<string> {
    match c
    case NoChecksum => None
    case ChecksumBody(text, broken) =>
      if broken && |text| < MAX_CHECKSUM_SIZE then None
      else Some(FirstWord(TrimRight(TrimLeft(text[..Min(|text|, MAX_CHECKSUM_SIZE)]))))
  }

  predicate Accepts(digest: string, c: Checksum) {
    Published(c).Some? && EqualFold(digest, Published(c).value)
  }

  predicate IsWord(word: string) {
    word != [] && forall c | c in word :: !IsSpace(c)
  }

  lemma {:induction false} TrimLeftSpaces(lead: string, rest: string)
    requires (forall c | c in lead :: IsSpace(c)) && rest != [] && !IsSpace(rest[0])
    ensures TrimLeft(lead + rest) == rest
  {
    if lead == [] {
      assert lead + rest == rest;
    } else {
      assert (lead + rest)[1..] == lead[1..] + rest;
      TrimLeftSpaces(lead[1..], rest);
    }
  }

  /** Trimming the end of a text that begins with a word keeps the word. */
  lemma {:induction false} TrimRightKeeps(word: string, rest: string)
    requires IsWord(word)
    ensures word <= TrimRight(word + rest) && TrimRight(word + rest)[|word|..] <= rest
  {
    if rest == [] {
      assert word + rest == word;
      assert word[|word| - 1] in word;
    } else if IsSpace(rest[|rest| - 1]) {
      assert (word + rest)[..|word + rest| - 1] == word + rest[..|rest| - 1];
      TrimRightKeeps(word, rest[..|rest| - 1]);
    } else {
      assert (word + rest)[|word|..] == rest;
    }
  }

  lemma {:induction false} FirstWordOf(word: string, rest: string)
    requires (forall c | c in word :: !IsSpace(c)) && (rest == [] || rest[0] == ' ')
    ensures FirstWord(word + rest) == word
  {
    if word == [] {
      assert word + rest == rest;
    } else {
      assert (word + rest)[1..] == word[1..] + rest;
      assert word[0] in word;
      FirstWordOf(word[1..], rest);
    }
  }

  lemma {:induction false} TrimRightSpaces(word: string, rest: string)
    requires IsWord(word) && forall c | c in rest :: IsSpace(c)
    ensures TrimRight(word + rest) == word
  {
    if rest == [] {
      assert word + rest == word;
      assert word[|word| - 1] in word;
    } else {
      assert rest[|rest| - 1] in rest;
      assert (word + rest)[..|word + rest| - 1] == word + rest[..|rest| - 1];
      TrimRightSpaces(word, rest[..|rest| - 1]);
    }
  }

  predicate IsWhite(c: char) {
    c == ' ' || 0x09 <= c as int <= 0x0d
  }

  /** The same text, each letter in either case. */
  ghost predicate SameButForCase(s: string, t: string) {
    && |s| == |t|
    && forall i | 0 <= i < |s| ::
         || s[i] == t[i]
         || ('a' <= s[i] <= 'z' && s[i] as int == t[i] as int + 32)
         || ('A' <= s[i] <= 'Z' && t[i] as int == s[i] as int + 32)
  }

  lemma FoldedExactly(s: string, t: string)
    ensures EqualFold(s, t) <==> SameButForCase(s, t)
  {
  }

  /** A checksum with white space around it, or a blank and anything after it, is accepted for
      exactly the digests that are that checksum, in upper or lower case. */
  lemma ChecksumFile(digest: string, lead: string, word: string, rest: string)
    requires forall c | c in lead :: IsWhite(c)
    requires word != [] && forall c | c in word :: !IsWhite(c)
    requires rest == [] || rest[0] == ' ' || forall c | c in rest :: IsWhite(c)
    requires |lead + word + rest| <= 1024
    ensures Accepts(digest, ChecksumBody(lead + word + rest, false)) <==> SameButForCase(digest, word)
  {
    hide TrimLeft, TrimRight, FirstWord, EqualFold, SameButForCase;
    assert forall c :: IsWhite(c) <==> IsSpace(c);
    var text := lead + (word + rest);
    assert word[0] in word && (word + rest)[0] == word[0];
    TrimLeftSpaces(lead, word + rest);
    var trimmed := TrimRight(word + rest);
    if forall c | c in rest :: IsWhite(c) {
      TrimRightSpaces(word, rest);
      assert word + [] == word;
      FirstWordOf(word, []);
    } else {
      TrimRightKeeps(word, rest);
      assert trimmed == word + trimmed[|word|..];
      FirstWordOf(word, trimmed[|word|..]);
    }
    FoldedExactly(digest, word);
    assert text[..Min(|text|, MAX_CHECKSUM_SIZE)] == text == lead + word + rest;
  }

  // ---------------------------------------------------------------- refusals

  /** What is wrong with what was served, the first thing a download finds; none if it is to be
      taken. present: there is a file that can be confirmed. */
  function Refusal(hash: Bytes -> string, decode: Bytes -> seq<Event>, edition: string, present: bool, served: Served)
    : Option<Error>
  {
    match served.answer
    case Unreachable => Some(RequestFailed)
    case OtherStatus => Some(UnexpectedStatus)
    case NotModified => if present then None else Some(TouchFailed)
    case Archived(archive) =>
      var found := Select(decode(archive.bytes), edition + ".mmdb");
      if found.Err? then Some(found.error)
      else if archive.broken then Some(ReadFailed)
      else Mismatch(hash(archive.bytes), served.checksum)
  }

  function Mismatch(digest: string, checksum: Checksum): (err: Option<Error>)
    ensures err == None <==> Accepts(digest, checksum)
    ensures err.Some? ==> err.value in {ChecksumFailed, ChecksumMismatch}
  {
    if Published(checksum) == None then Some(ChecksumFailed)
    else if Accepts(digest, checksum) then None
    else Some(ChecksumMismatch)
  }

  /** What is taken, and why something is not, in terms of the answers alone. */
  lemma RefusedExactly(hash: Bytes -> string, decode: Bytes -> seq<Event>, edition: string, present: bool,
                       archive: Archive, checksum: Checksum)
    ensures Refusal(hash, decode, edition, present, Served(Unreachable, checksum)) == Some(RequestFailed)
    ensures Refusal(hash, decode, edition, present, Served(OtherStatus, checksum)) == Some(UnexpectedStatus)
    ensures Refusal(hash, decode, edition, present, Served(NotModified, checksum)) ==
            if present then None else Some(TouchFailed)
    ensures var refusal := Refusal(hash, decode, edition, present, Served(Archived(archive), checksum));
            var found := exists content :: Holds(decode(archive.bytes), edition + ".mmdb", content);
            var unreadable := checksum.NoChecksum? || (checksum.broken && |checksum.text| < 1024);
            && (refusal == None <==> found && !archive.broken && Accepts(hash(archive.bytes), checksum))
            && (refusal == Some(ReadFailed) <==> found && archive.broken)
            && (refusal == Some(ChecksumFailed) <==> found && !archive.broken && unreadable)
            && (refusal == Some(ChecksumMismatch) <==>
                found && !archive.broken && !unreadable && !Accepts(hash(archive.bytes), checksum))
  {
    hide Select, Accepts, Holds;
    var events, name := decode(archive.bytes), edition + ".mmdb";
    SelectExactly(events, name);
    if Select(events, name).Ok? {
      assert Holds(events, name, Select(events, name).value);
    }
    UnreadableIsRefused(hash(archive.bytes), checksum);
  }

  lemma UnreadableIsRefused(digest: string, checksum: Checksum)
    ensures Published(checksum) == None <==>
            checksum.NoChecksum? || (checksum.broken && |checksum.text| < 1024)
    ensures Published(checksum) == None ==> !Accepts(digest, checksum)
  {
  }
}
