/**
 Included files on disk: what saving appends after the data section in its last
 phase, and how loading reads it back until the stream ends (src/app/parser.c).
 Reads come up short only at the end of the stream; writes succeed.
 */
module IncludedCodec {
  import opened Words
  import opened CStrings
  import opened Errors
  import opened IncludedFiles

  // Writing.

  /** The length is cut to 32 bits; the size is written even where there is no payload to follow. */
  function Encode(e: Entry): Bytes
    requires e.size < UINT32_COUNT
  {
    var n := |e.name| % UINT32_COUNT;
    PutU32(n) + e.name[..n] + PutU32(e.size) + if e.size > 0 && e.data.Some? then e.data.value else []
  }

  ghost predicate Sizes(es: seq<Entry>) {
    forall i :: 0 <= i < |es| ==> es[i].size < UINT32_COUNT
  }

  function EncodeAll(es: seq<Entry>): Bytes
    requires Sizes(es)
  {
    if es == [] then [] else Encode(es[0]) + EncodeAll(es[1..])
  }

  // Reading.

  /** The bytes of a buffer that strlen counts. */
  function UpToNul(b: Bytes): (s: CString)
    ensures |s| <= |b|
  {
    if b == [] || b[0] == NUL then [] else [b[0]] + UpToNul(b[1..])
  }

  /** rest is the stream after the record. */
  datatype Record =
    | End
    | Bad(code: int)
    | Good(name: CString, size: nat, data: Option<Bytes>, rest: Bytes)

  /** The record a stream begins with; fewer than four bytes count as its end. */
  function ReadRecord(s: Bytes): (r: Record)
    ensures r.Good? ==> |r.rest| + 8 <= |s|
  {
    if |s| < 4 then End
    else
      var n, afterLength := GetU32(s), s[4..];
      if n + 1 == UINT32_COUNT then Bad(NMO_ERR_NOMEM)
      else if |afterLength| < n then Bad(NMO_ERR_EOF)
      else
        var afterName := afterLength[n..];
        if |afterName| < 4 then Bad(NMO_ERR_EOF)
        else
          var size, afterSize := GetU32(afterName), afterName[4..];
          if |afterSize| < size then Bad(NMO_ERR_EOF)
          else Good(UpToNul(afterLength[..n]), size, if size > 0 then Some(afterSize[..size]) else None, afterSize[size..])
  }

  /** What loading stores of a record: the payload is borrowed from the loader's buffer. */
  function Loaded(name: CString, size: nat, data: Option<Bytes>): Entry {
    Entry(name, data, size, [], 0, true, false)
  }

  datatype Outcome = Outcome(entries: seq<Entry>, code: int)

  function DecodeAll(s: Bytes): Outcome
    decreases |s|
  {
    match ReadRecord(s)
    case End => Outcome([], NMO_OK)
    case Bad(code) => Outcome([], code)
    case Good(name, size, data, rest) =>
      var later := DecodeAll(rest);
      Outcome([Loaded(name, size, data)] + later.entries, later.code)
  }

  datatype Desc = Desc(name: Option<CString>, size: nat)

  /** The included-file part of Header1; descs is null when the table is absent. */
  datatype Header1 = Header1(count: nat, descs: Option<seq<Desc>>)

  predicate WellFormed(hdr: Option<Header1>) {
    hdr.Some? && hdr.value.descs.Some? ==> |hdr.value.descs.value| == hdr.value.count
  }

  /** An entry known from its descriptor only. */
  function MetadataOnly(d: Desc): Entry {
    Entry(if d.name == None then [] else d.name.value, None, d.size, [], 0, true, true)
  }

  function MetadataAll(ds: seq<Desc>): (r: seq<Entry>)
    ensures |r| == |ds|
  {
    if ds == [] then [] else MetadataAll(ds[..|ds| - 1]) + [MetadataOnly(ds[|ds| - 1])]
  }

  /** The descriptors left over after parsed records. */
  function LeftOver(hdr: Option<Header1>, parsed: nat): seq<Desc>
    requires WellFormed(hdr)
  {
    if hdr.Some? && hdr.value.descs.Some? && parsed < hdr.value.count then hdr.value.descs.value[parsed..] else []
  }

  /** Everything a load appends to the store, and what it returns. */
  function LoadAll(s: Bytes, hdr: Option<Header1>): Outcome
    requires WellFormed(hdr)
  {
    var o := DecodeAll(s);
    if o.code != NMO_OK then o else Outcome(o.entries + MetadataAll(LeftOver(hdr, |o.entries|)), NMO_OK)
  }

  // The streams and the two loops.

  class Io {
    var bytes: Bytes
    var pos: nat

    ghost predicate Valid()
      reads this
    {
      pos <= |bytes|
    }

    ghost function Rest(): Bytes
      reads this
      requires Valid()
    {
      bytes[pos..]
    }

    constructor (bytes: Bytes)
      ensures Valid() && Rest() == bytes
    {
      this.bytes, pos := bytes, 0;
    }

    method Write(b: Bytes)
      modifies this`bytes
      ensures bytes == old(bytes) + b
    {
      bytes := bytes + b;
    }

    /** nmo_io_read on a file: what is left, at most size bytes, is no error. */
    method Read(size: nat) returns (b: Bytes)
      requires Valid()
      modifies this`pos
      ensures Valid()
      ensures b == (if size <= |old(Rest())| then old(Rest())[..size] else old(Rest()))
      ensures Rest() == old(Rest())[|b|..]
    {
      var end := if pos + size <= |bytes| then pos + size else |bytes|;
      b := bytes[pos..end];
      pos := end;
    }

    /** nmo_io_read_u32: short of four bytes the stream is at its end. */
    method ReadU32() returns (code: int, v: nat)
      requires Valid()
      modifies this`pos
      ensures Valid()
      ensures if |old(Rest())| < 4 then code == NMO_ERR_EOF
        else code == NMO_OK && v == GetU32(old(Rest())) && Rest() == old(Rest())[4..]
    {
      ghost var s := Rest();
      var b := Read(4);
      if |b| < 4 {
        return NMO_ERR_EOF, 0;
      }
      GetFirst(s, 4, 4);
      return NMO_OK, GetU32(b);
    }
  }

  /** Phase 15 of saving. */
  method WriteIncludedFiles(io: Io, files: seq<Entry>, strip: bool)
    requires Sizes(files)
    modifies io
    ensures io.bytes == old(io.bytes) + if strip then [] else EncodeAll(files)
  {
    if strip || files == [] {
      return;
    }
    hide Encode, EncodeAll;
    ghost var start := io.bytes;
    EncodeNone(files);
    var i := 0;
    while i < |files|
      invariant 0 <= i <= |files|
      invariant io.bytes == start + EncodeAll(files[..i])
    {
      WriteEntry(io, files[i]);
      WroteOneMore(start, files, i);
      i := i + 1;
    }
    assert files[..i] == files;
  }

  lemma WroteOneMore(start: Bytes, es: seq<Entry>, i: nat)
    requires Sizes(es) && i < |es|
    ensures (start + EncodeAll(es[..i])) + Encode(es[i]) == start + EncodeAll(es[..i + 1])
  {
    hide Encode, EncodeAll;
    EncodeOneMore(es, i);
  }

  lemma EncodeNone(es: seq<Entry>)
    ensures EncodeAll(es[..0]) == []
  {
  }

  lemma {:induction false} EncodeOneMore(es: seq<Entry>, i: nat)
    requires Sizes(es) && i < |es|
    ensures EncodeAll(es[..i + 1]) == EncodeAll(es[..i]) + Encode(es[i])
    decreases i
  {
    hide Encode;
    if i == 0 {
      assert es[..1][1..] == [];
    } else {
      assert es[..i + 1][1..] == es[1..][..i] && es[..i][1..] == es[1..][..i - 1];
      EncodeOneMore(es[1..], i - 1);
    }
  }

  method WriteEntry(io: Io, e: Entry)
    requires e.size < UINT32_COUNT
    modifies io
    ensures io.bytes == old(io.bytes) + Encode(e)
  {
    var nameLength := |e.name| % UINT32_COUNT;
    io.Write(PutU32(nameLength));
    if nameLength > 0 {
      io.Write(e.name[..nameLength]);
    }
    io.Write(PutU32(e.size));
    if e.size > 0 && e.data.Some? {
      io.Write(e.data.value);
    }
  }

  lemma DecodeStep(s: Bytes)
    ensures var r := ReadRecord(s);
      if r.End? then DecodeAll(s) == Outcome([], NMO_OK)
      else if r.Bad? then DecodeAll(s) == Outcome([], r.code)
      else
        var later := DecodeAll(r.rest);
        DecodeAll(s) == Outcome([Loaded(r.name, r.size, r.data)] + later.entries, later.code)
  {
  }

  /** The reads of one pass of the loop. A name length whose successor wraps to 0 finds no block in the arena. */
  method NextRecord(io: Io, ghost s: Bytes) returns (r: Record)
    requires io.Valid() && s == io.Rest()
    modifies io
    ensures io.Valid() && r == ReadRecord(s) && (r.Good? ==> io.Rest() == r.rest)
  {
    hide GetU32;
    var code, nameLength := io.ReadU32();
    if code != NMO_OK {
      return End;
    }
    if (nameLength + 1) % UINT32_COUNT == 0 {
      return Bad(NMO_ERR_NOMEM);
    }
    var name: Bytes := [];
    ghost var afterLength := io.Rest();
    if nameLength > 0 {
      name := io.Read(nameLength);
      if |name| != nameLength {
        return Bad(NMO_ERR_EOF);
      }
    }
    assert name == afterLength[..nameLength] && io.Rest() == afterLength[nameLength..];
    var dataSize;
    code, dataSize := io.ReadU32();
    if code != NMO_OK {
      return Bad(NMO_ERR_EOF);
    }
    var payload: Option<Bytes> := None;
    ghost var afterSize := io.Rest();
    if dataSize > 0 {
      var data := io.Read(dataSize);
      if |data| != dataSize {
        return Bad(NMO_ERR_EOF);
      }
      payload := Some(data);
    }
    assert io.Rest() == afterSize[dataSize..];
    return Good(UpToNul(name), dataSize, payload, io.bytes[io.pos..]);
  }

  /** One pass of the loop: None when a record was stored, else what loading returns for it. */
  method LoadRecord(store: IncludedFileStore, io: Io, ghost s: Bytes) returns (result: Option<int>)
    requires store.Valid() && io.Valid() && s == io.Rest()
    requires ReadRecord(s).Good? ==> store.count < LARGEST
    modifies store, store.files, io
    ensures store.Valid() && io.Valid() && (store.files == old(store.files) || fresh(store.files))
    ensures var r := ReadRecord(s);
      && result == (if r.End? then Some(NMO_OK) else if r.Bad? then Some(r.code) else None)
      && store.Contents() == (if r.Good? then old(store.Contents()) + [Loaded(r.name, r.size, r.data)] else old(store.Contents()))
      && (r.Good? ==> io.Rest() == r.rest)
    ensures old(store.Packed()) ==> store.Packed()
  {
    hide FourTimesPowerOfTwo;
    RecordSound(s);
    hide ReadRecord;
    var r := NextRecord(io, s);
    match r
    case End => return Some(NMO_OK);
    case Bad(code) => return Some(code);
    case Good(name, size, data, _) =>
      assert data.Some? ==> data.value[..size] == data.value;
      var code := store.Store(Some(name), data, size, false, None);
      return None;
  }

  /** A record has a payload exactly if its size is not 0, and of that size. */
  lemma RecordSound(s: Bytes)
    ensures var r := ReadRecord(s);
      && (r.Bad? ==> r.code != NMO_OK)
      && (r.Good? ==>
            && (r.size == 0 <==> r.data == None) && (r.data.Some? ==> |r.data.value| == r.size)
            && r.size < UINT32_COUNT && |r.name| + 1 < UINT32_COUNT)
  {
  }

  /** nmo_register_included_metadata */
  method RegisterMetadata(store: IncludedFileStore, name: Option<CString>, dataSize: nat) returns (code: int)
    requires store.Valid() && store.count < LARGEST
    modifies store, store.files
    ensures store.Valid() && (store.files == old(store.files) || fresh(store.files))
    ensures code == NMO_OK && store.Contents() == old(store.Contents()) + [MetadataOnly(Desc(name, dataSize))]
    ensures old(store.Packed()) ==> store.Packed()
  {
    hide FourTimesPowerOfTwo;
    code := store.Store(Some(if name == None then [] else name.value), None, dataSize, false,
                        Some(Metadata(None, false, true)));
  }

  /** nmo_load_included_files: records until the stream ends, then the descriptors left over. */
  method LoadIncludedFiles(store: IncludedFileStore, io: Io, hdr: Option<Header1>) returns (code: int)
    requires store.Valid() && io.Valid() && WellFormed(hdr)
    requires store.count + |LoadAll(io.Rest(), hdr).entries| <= LARGEST
    modifies store, store.files, io
    ensures store.Valid()
    ensures var o := LoadAll(old(io.Rest()), hdr);
      code == o.code && store.Contents() == old(store.Contents()) + o.entries
    ensures old(store.Packed()) ==> store.Packed()
  {
    hide FourTimesPowerOfTwo, DecodeAll, LeftOver, MetadataAll, Sound;
    ghost var base, records := store.Contents(), DecodeAll(io.Rest());
    var expected := if hdr.Some? then hdr.value.count else 0;
    var parsed;
    code, parsed := LoadRecords(store, io);
    if code == NMO_OK {
      code := RegisterLeftOver(store, hdr, parsed, expected);
      assert (base + records.entries) + MetadataAll(LeftOver(hdr, parsed)) == base + (records.entries + MetadataAll(LeftOver(hdr, parsed)));
    }
  }

  method LoadRecords(store: IncludedFileStore, io: Io) returns (code: int, parsed: nat)
    requires store.Valid() && io.Valid()
    requires store.count + |DecodeAll(io.Rest()).entries| <= LARGEST
    modifies store, store.files, io
    ensures store.Valid() && (store.files == old(store.files) || fresh(store.files))
    ensures var o := DecodeAll(old(io.Rest()));
      code == o.code && parsed == |o.entries| && store.Contents() == old(store.Contents()) + o.entries
    ensures old(store.Packed()) ==> store.Packed()
  {
    hide FourTimesPowerOfTwo, ReadRecord, DecodeAll, Sound;
    ghost var base, all := store.Contents(), DecodeAll(io.Rest());
    ghost var got: seq<Entry> := [];
    parsed := 0;
    while true
      invariant old(store.Packed()) ==> store.Packed()
      invariant store.Valid() && io.Valid()
      invariant store.files == old(store.files) || fresh(store.files)
      invariant store.Contents() == base + got && parsed == |got|
      invariant all == Continued(got, io.Rest())
      decreases |io.Rest()|
    {
      ghost var s := io.Rest();
      ghost var r := ReadRecord(s);
      ContinuedStep(got, s);
      RecordSound(s);
      GoodRecordCounts(got, s);
      hide Continued;
      var result := LoadRecord(store, io, s);
      if result.Some? {
        code := result.value;
        return;
      }
      assert (base + got) + [Loaded(r.name, r.size, r.data)] == base + (got + [Loaded(r.name, r.size, r.data)]);
      got := got + [Loaded(r.name, r.size, r.data)];
      parsed := parsed + 1;
    }
  }

  /** What decoding comes to when some entries are already there. */
  ghost function Continued(got: seq<Entry>, s: Bytes): Outcome {
    Outcome(got + DecodeAll(s).entries, DecodeAll(s).code)
  }

  lemma GoodRecordCounts(got: seq<Entry>, s: Bytes)
    ensures |got| <= |Continued(got, s).entries|
    ensures ReadRecord(s).Good? ==> |got| < |Continued(got, s).entries|
  {
    hide ReadRecord, DecodeAll;
    DecodeStep(s);
  }

  lemma ContinuedStep(got: seq<Entry>, s: Bytes)
    ensures var r := ReadRecord(s);
      Continued(got, s) ==
        if r.End? then Outcome(got, NMO_OK)
        else if r.Bad? then Outcome(got, r.code)
        else Continued(got + [Loaded(r.name, r.size, r.data)], r.rest)
  {
    hide ReadRecord, DecodeAll;
    DecodeStep(s);
    var r := ReadRecord(s);
    if r.Good? {
      var e := [Loaded(r.name, r.size, r.data)];
      assert got + (e + DecodeAll(r.rest).entries) == (got + e) + DecodeAll(r.rest).entries;
    }
  }

  /** The descriptors beyond the records parsed become entries without payload. */
  method RegisterLeftOver(store: IncludedFileStore, hdr: Option<Header1>, parsed: nat, expected: nat) returns (code: int)
    requires store.Valid() && WellFormed(hdr) && expected == if hdr.Some? then hdr.value.count else 0
    requires store.count + |LeftOver(hdr, parsed)| <= LARGEST
    modifies store, store.files
    ensures store.Valid() && (store.files == old(store.files) || fresh(store.files))
    ensures code == NMO_OK
    ensures store.Contents() == old(store.Contents()) + MetadataAll(LeftOver(hdr, parsed))
    ensures old(store.Packed()) ==> store.Packed()
  {
    hide FourTimesPowerOfTwo, MetadataAll, Sound;
    MetadataNone();
    ghost var base, left := store.Contents(), LeftOver(hdr, parsed);
    if expected > parsed && hdr.value.descs.Some? {
      var descs := hdr.value.descs.value;
      var i := parsed;
      while i < expected
        invariant old(store.Packed()) ==> store.Packed()
      invariant parsed <= i <= expected
        invariant store.Valid() && (store.files == old(store.files) || fresh(store.files))
        invariant store.Contents() == base + MetadataAll(left[..i - parsed])
      {
        MetadataOneMore(left, i - parsed);
        ghost var done, next := MetadataAll(left[..i - parsed]), [MetadataOnly(left[i - parsed])];
        code := RegisterMetadata(store, descs[i].name, descs[i].size);
        assert (base + done) + next == base + (done + next);
        if code != NMO_OK {
          return;
        }
        i := i + 1;
      }
      assert left[..i - parsed] == left;
    }
    code := NMO_OK;
  }

  lemma MetadataNone()
    ensures MetadataAll([]) == []
  {
  }

  lemma MetadataOneMore(ds: seq<Desc>, i: nat)
    requires i < |ds|
    ensures MetadataAll(ds[..i + 1]) == MetadataAll(ds[..i]) + [MetadataOnly(ds[i])]
  {
    assert ds[..i + 1][..i] == ds[..i];
  }

  // Reading undoes writing.

  /** An entry all of which saving writes: its payload is there, and its name is short enough to be read. */
  predicate Complete(e: Entry) {
    && |e.name| + 1 < UINT32_COUNT && e.size < UINT32_COUNT
    && (e.data.Some? <==> e.size > 0)
    && (e.data.Some? ==> |e.data.value| == e.size)
  }

  ghost predicate AllSound(es: seq<Entry>) {
    forall i :: 0 <= i < |es| ==> Sound(es[i])
  }

  ghost predicate AllComplete(es: seq<Entry>) {
    forall i :: 0 <= i < |es| ==> Complete(es[i])
  }

  /** A loaded entry has the name, the size and every byte of the one that was saved. */
  predicate Restored(loaded: Entry, saved: Entry) {
    && loaded.name == saved.name && loaded.size == saved.size && loaded.data == saved.data
    && loaded.owners == [] && loaded.borrowed && !loaded.metadataOnly
  }

  ghost predicate AllRestored(loaded: seq<Entry>, saved: seq<Entry>) {
    |loaded| == |saved| && forall i :: 0 <= i < |saved| ==> Restored(loaded[i], saved[i])
  }

  /** An entry has what a descriptor declares, and no payload. */
  predicate Declared(loaded: Entry, d: Desc) {
    && loaded.name == (if d.name == None then [] else d.name.value) && loaded.size == d.size && loaded.data == None
    && loaded.owners == [] && loaded.borrowed && loaded.metadataOnly
  }

  /** The name, size and payload of an entry, as loading stores them. */
  function AsLoaded(e: Entry): Entry {
    Loaded(e.name, e.size, e.data)
  }

  function AllLoaded(es: seq<Entry>): (r: seq<Entry>)
    ensures |r| == |es| && forall i :: 0 <= i < |es| ==> r[i] == AsLoaded(es[i])
  {
    if es == [] then [] else [AsLoaded(es[0])] + AllLoaded(es[1..])
  }

  lemma LoadedRestores(es: seq<Entry>)
    ensures AllRestored(AllLoaded(es), es)
  {
  }

  lemma {:induction false} NameWhole(name: CString)
    ensures UpToNul(name) == name
    decreases |name|
  {
    if name != [] {
      NameWhole(name[1..]);
    }
  }

  lemma {:induction false} NamePrefix(raw: Bytes)
    ensures var name := UpToNul(raw);
      |name| <= |raw| && (forall i :: 0 <= i < |name| ==> name[i] == raw[i]) && (|name| < |raw| ==> raw[|name|] == NUL)
    decreases |raw|
  {
    if raw != [] && raw[0] != NUL {
      NamePrefix(raw[1..]);
    }
  }

  /** A record is a length, that many bytes of name, a size, and that many of payload; the name is read up to a NUL. */
  lemma RecordLayout(raw: Bytes, payload: Bytes, rest: Bytes)
    requires |raw| + 1 < UINT32_COUNT && |payload| < UINT32_COUNT
    ensures var r := ReadRecord(PutU32(|raw|) + (raw + (PutU32(|payload|) + (payload + rest))));
      && r.Good? && r.name == UpToNul(raw) && r.size == |payload| && r.rest == rest
      && r.data == if payload == [] then None else Some(payload)
  {
    hide PutU32, GetU32, UpToNul;
    var afterSize: Bytes := payload + rest;
    var afterName: Bytes := PutU32(|payload|) + afterSize;
    var afterLength: Bytes := raw + afterName;
    var s: Bytes := PutU32(|raw|) + afterLength;
    U32RoundTrip(|raw|, afterLength);
    U32RoundTrip(|payload|, afterSize);
    assert s[4..] == afterLength;
    assert afterLength[..|raw|] == raw && afterLength[|raw|..] == afterName;
    assert afterName[4..] == afterSize;
    assert afterSize[..|payload|] == payload && afterSize[|payload|..] == rest;
  }

  /** Every other stream: its end within four bytes, a length without a successor, or an end inside the record. */
  lemma RecordFails(s: Bytes)
    ensures var r := ReadRecord(s);
      && (r.End? <==> |s| < 4)
      && (|s| >= 4 ==>
            var n := GetU32(s);
            && (n == UINT32_COUNT - 1 ==> r == Bad(NMO_ERR_NOMEM))
            && (n < UINT32_COUNT - 1 ==>
                  && (r.Good? <==> |s| >= 8 + n && |s| >= 8 + n + GetU32(s[4 + n..]))
                  && (r.Bad? ==> r.code == NMO_ERR_EOF)))
  {
    hide GetU32, UpToNul;
    if |s| >= 4 {
      var n := GetU32(s);
      assert |s| >= 4 + n ==> s[4..][n..] == s[4 + n..];
    }
  }

  lemma ReadEncoded(e: Entry, rest: Bytes)
    requires Complete(e)
    ensures ReadRecord(Encode(e) + rest) == Good(e.name, e.size, e.data, rest)
  {
    hide PutU32, ReadRecord;
    var n := |e.name|;
    var payload: Bytes := if e.size > 0 then e.data.value else [];
    assert n % UINT32_COUNT == n && e.name[..n] == e.name;
    assert Encode(e) + rest == PutU32(n) + (e.name + (PutU32(e.size) + (payload + rest)));
    NameWhole(e.name);
    RecordLayout(e.name, payload, rest);
  }

  lemma DecodeEncoded(e: Entry, rest: Bytes)
    requires Complete(e)
    ensures DecodeAll(Encode(e) + rest) == Outcome([AsLoaded(e)] + DecodeAll(rest).entries, DecodeAll(rest).code)
  {
    hide Encode, DecodeAll, ReadRecord;
    ReadEncoded(e, rest);
    DecodeStep(Encode(e) + rest);
  }

  /** Whatever follows them in the stream, complete entries are read back first, in order. */
  lemma {:induction false} DecodeAfter(es: seq<Entry>, rest: Bytes)
    requires AllComplete(es)
    ensures DecodeAll(EncodeAll(es) + rest) == Outcome(AllLoaded(es) + DecodeAll(rest).entries, DecodeAll(rest).code)
    decreases |es|
  {
    hide Encode, DecodeAll;
    if es == [] {
      assert EncodeAll(es) + rest == rest;
    } else {
      var tail := EncodeAll(es[1..]);
      assert EncodeAll(es) + rest == Encode(es[0]) + (tail + rest);
      DecodeEncoded(es[0], tail + rest);
      DecodeAfter(es[1..], rest);
    }
  }

  lemma DecodeNothing()
    ensures DecodeAll([]) == Outcome([], NMO_OK)
  {
  }

  lemma {:induction false} DecodedComplete(s: Bytes)
    ensures AllComplete(DecodeAll(s).entries)
    decreases |s|
  {
    hide DecodeAll, ReadRecord;
    DecodeStep(s);
    RecordSound(s);
    var r := ReadRecord(s);
    if r.Good? {
      RecordShortens(s);
      DecodedComplete(r.rest);
    }
  }

  lemma RecordShortens(s: Bytes)
    ensures ReadRecord(s).Good? ==> |ReadRecord(s).rest| < |s|
  {
  }

  /**
   Saving and loading a list of included files gives back every name, size and
   payload in order exactly when each entry that has a size has its payload, and no
   name reaches 2^32 - 1 bytes.
   */
  lemma RoundTripIff(es: seq<Entry>)
    requires Sizes(es) && AllSound(es)
    ensures var o := DecodeAll(EncodeAll(es));
      o.code == NMO_OK && AllRestored(o.entries, es) <==> AllComplete(es)
    ensures DecodeAll(EncodeAll(es)) == Outcome(AllLoaded(es), NMO_OK) <==> AllComplete(es)
  {
    hide Encode, DecodeAll, EncodeAll;
    LoadedRestores(es);
    if AllComplete(es) {
      DecodeAfter(es, []);
      DecodeNothing();
      assert EncodeAll(es) + [] == EncodeAll(es);
    } else if AllRestored(DecodeAll(EncodeAll(es)).entries, es) {
      DecodedComplete(EncodeAll(es));
      var i :| 0 <= i < |es| && !Complete(es[i]);
      CompleteAsLoaded(es[i], DecodeAll(EncodeAll(es)).entries[i]);
    }
  }

  lemma CompleteAsLoaded(e: Entry, l: Entry)
    requires Restored(l, e) && Complete(l)
    ensures Complete(e)
  {
  }

  /**
   An entry known by its descriptor only does not survive the next save: its size is
   written without a payload, and a load of a file that ends with it fails behind the
   entries before it.
   */
  lemma MetadataOnlyIsLost(es: seq<Entry>, d: Desc)
    requires AllComplete(es)
    requires 0 < d.size < UINT32_COUNT && (d.name.Some? ==> |d.name.value| < UINT32_COUNT - 1)
    ensures Sizes(es + [MetadataOnly(d)])
    ensures DecodeAll(EncodeAll(es + [MetadataOnly(d)])) == Outcome(AllLoaded(es), NMO_ERR_EOF)
    ensures AllRestored(DecodeAll(EncodeAll(es + [MetadataOnly(d)])).entries, es)
  {
    LoadedRestores(es);
    hide Encode, EncodeAll, DecodeAll;
    var last := MetadataOnly(d);
    EncodeOneMore(es + [last], |es|);
    assert (es + [last])[..|es| + 1] == es + [last] && (es + [last])[..|es|] == es;
    DecodeAfter(es, Encode(last));
    UnpaidRecord(d);
    DecodeStep(Encode(last));
    assert AllLoaded(es) + [] == AllLoaded(es);
  }

  lemma UnpaidRecord(d: Desc)
    requires 0 < d.size < UINT32_COUNT && (d.name.Some? ==> |d.name.value| < UINT32_COUNT - 1)
    ensures ReadRecord(Encode(MetadataOnly(d))) == Bad(NMO_ERR_EOF)
  {
    hide PutU32, GetU32, UpToNul, ReadRecord;
    var e := MetadataOnly(d);
    var n := |e.name|;
    assert n % UINT32_COUNT == n && e.name[..n] == e.name;
    assert Encode(e) == PutU32(n) + (e.name + PutU32(e.size));
    hide Encode;
    ReadUnpaid(e.name, e.size);
  }

  lemma ReadUnpaid(name: CString, size: nat)
    requires |name| + 1 < UINT32_COUNT && 0 < size < UINT32_COUNT
    ensures ReadRecord(PutU32(|name|) + (name + PutU32(size))) == Bad(NMO_ERR_EOF)
  {
    hide PutU32, GetU32, UpToNul;
    var afterName: Bytes := PutU32(size) + [];
    var afterLength: Bytes := name + PutU32(size);
    U32RoundTrip(|name|, afterLength);
    U32RoundTrip(size, []);
    assert (PutU32(|name|) + afterLength)[4..] == afterLength;
    assert afterLength[|name|..] == afterName;
  }

  // Streams that end early.

  lemma CutRecord(e: Entry, r: nat)
    requires Complete(e) && r < |Encode(e)|
    ensures ReadRecord(Encode(e)[..r]) == if r < 4 then End else Bad(NMO_ERR_EOF)
  {
    hide PutU32, GetU32, UpToNul;
    var n := |e.name|;
    var payload: Bytes := if e.size > 0 then e.data.value else [];
    var afterName: Bytes := PutU32(e.size) + payload;
    assert n % UINT32_COUNT == n && e.name[..n] == e.name;
    assert Encode(e) == PutU32(n) + (e.name + afterName);
    var s := Encode(e)[..r];
    if r >= 4 {
      assert s == PutU32(n) + (e.name + afterName)[..r - 4];
      U32RoundTrip(n, (e.name + afterName)[..r - 4]);
      if r >= 8 + n {
        assert s[4..][n..] == PutU32(e.size) + payload[..r - 8 - n];
        U32RoundTrip(e.size, payload[..r - 8 - n]);
      }
    }
  }

  lemma CutWithin(es: seq<Entry>, c: nat)
    requires AllComplete(es) && es != [] && c < |Encode(es[0])|
    ensures DecodeAll(EncodeAll(es)[..c]) == Outcome([], if c < 4 then NMO_OK else NMO_ERR_EOF)
  {
    hide Encode, DecodeAll;
    assert EncodeAll(es)[..c] == Encode(es[0])[..c];
    CutRecord(es[0], c);
    DecodeStep(EncodeAll(es)[..c]);
  }

  /**
   A stream cut anywhere: the k records before the cut are read; up to three bytes
   of the next one pass for the end of the stream, more of it make the load fail.
   */
  lemma {:induction false} DecodeCut(es: seq<Entry>, c: nat) returns (k: nat)
    requires AllComplete(es) && c <= |EncodeAll(es)|
    ensures k <= |es| && |EncodeAll(es[..k])| <= c && (k < |es| ==> c < |EncodeAll(es[..k + 1])|)
    ensures DecodeAll(EncodeAll(es)[..c])
      == Outcome(AllLoaded(es[..k]), if c < |EncodeAll(es[..k])| + 4 then NMO_OK else NMO_ERR_EOF)
    ensures AllRestored(DecodeAll(EncodeAll(es)[..c]).entries, es[..k])
    decreases |es|
  {
    hide Encode, DecodeAll;
    if es == [] {
      k := 0;
      DecodeNothing();
    } else if c < |Encode(es[0])| {
      k := 0;
      EncodeOneMore(es, 0);
      CutWithin(es, c);
    } else {
      var first := |Encode(es[0])|;
      var j := DecodeCut(es[1..], c - first);
      k := j + 1;
      EncodeFirst(es, k);
      if k < |es| {
        EncodeFirst(es, k + 1);
      }
      assert EncodeAll(es)[..c] == Encode(es[0]) + EncodeAll(es[1..])[..c - first];
      DecodeEncoded(es[0], EncodeAll(es[1..])[..c - first]);
      assert es[..k][1..] == es[1..][..j];
    }
    LoadedRestores(es[..k]);
  }

  lemma EncodeFirst(es: seq<Entry>, k: nat)
    requires Sizes(es) && 0 < k <= |es|
    ensures EncodeAll(es[..k]) == Encode(es[0]) + EncodeAll(es[1..][..k - 1])
  {
    assert es[..k][1..] == es[1..][..k - 1];
  }

  /**
   No declared file is lost on a short stream: a load of a stream cut after k
   records stores these k and then what the header still declares; one cut further
   inside a record fails and stores exactly the k.
   */
  lemma LoadOfCutStream(es: seq<Entry>, c: nat, hdr: Option<Header1>) returns (k: nat)
    requires AllComplete(es) && c <= |EncodeAll(es)| && WellFormed(hdr)
    ensures k <= |es| && |EncodeAll(es[..k])| <= c && (k < |es| ==> c < |EncodeAll(es[..k + 1])|)
    ensures LoadAll(EncodeAll(es)[..c], hdr) ==
      if c < |EncodeAll(es[..k])| + 4 then Outcome(AllLoaded(es[..k]) + MetadataAll(LeftOver(hdr, k)), NMO_OK)
      else Outcome(AllLoaded(es[..k]), NMO_ERR_EOF)
    ensures var o := LoadAll(EncodeAll(es)[..c], hdr);
      && (o.code == NMO_OK <==> c < |EncodeAll(es[..k])| + 4)
      && k <= |o.entries| && AllRestored(o.entries[..k], es[..k])
      && (o.code != NMO_OK ==> |o.entries| == k)
      && (o.code == NMO_OK && hdr.Some? && hdr.value.descs.Some? ==>
            var descs := hdr.value.descs.value;
            && |o.entries| == (if k < |descs| then |descs| else k)
            && forall i :: k <= i < |o.entries| ==> Declared(o.entries[i], descs[i]))
      && (hdr == None || hdr.value.descs == None ==> |o.entries| == k)
  {
    hide DecodeAll, EncodeAll;
    k := DecodeCut(es, c);
    LoadedRestores(es[..k]);
    DeclaredAll(LeftOver(hdr, k));
    var o := LoadAll(EncodeAll(es)[..c], hdr);
    assert o.entries[..k] == AllLoaded(es[..k]);
  }

  lemma {:induction false} DeclaredAll(ds: seq<Desc>)
    ensures forall j :: 0 <= j < |ds| ==> Declared(MetadataAll(ds)[j], ds[j])
    decreases |ds|
  {
    if ds != [] {
      DeclaredAll(ds[..|ds| - 1]);
    }
  }

  /** The header saving writes along with the entries. */
  function HeaderOf(es: seq<Entry>): Header1 {
    Header1(|es|, if es == [] then None else Some(seq(|es|, i requires 0 <= i < |es| => Desc(Some(es[i].name), es[i].size))))
  }

  /** Saving complete entries and loading the file again stores the same entries and no others. */
  lemma SaveThenLoad(es: seq<Entry>)
    requires AllComplete(es)
    ensures LoadAll(EncodeAll(es), Some(HeaderOf(es))) == Outcome(AllLoaded(es), NMO_OK)
    ensures AllRestored(LoadAll(EncodeAll(es), Some(HeaderOf(es))).entries, es)
  {
    hide DecodeAll, EncodeAll;
    DecodeAfter(es, []);
    DecodeNothing();
    MetadataNone();
    LoadedRestores(es);
    assert EncodeAll(es) + [] == EncodeAll(es);
    assert LeftOver(Some(HeaderOf(es)), |es|) == [];
    assert AllLoaded(es) + [] == AllLoaded(es);
  }

  /**
   A saved file whose included files were cut off behind k records, or up to three
   bytes further, still names every file: those of the records whole, the others by
   name and size.
   */
  lemma CutFileNamesAll(es: seq<Entry>, c: nat) returns (k: nat)
    requires AllComplete(es) && c <= |EncodeAll(es)|
    ensures k <= |es| && |EncodeAll(es[..k])| <= c && (k < |es| ==> c < |EncodeAll(es[..k + 1])|)
    ensures c < |EncodeAll(es[..k])| + 4 ==>
      var o := LoadAll(EncodeAll(es)[..c], Some(HeaderOf(es)));
      && o.code == NMO_OK && |o.entries| == |es|
      && (forall i :: 0 <= i < k ==> Restored(o.entries[i], es[i]))
      && forall i :: k <= i < |es| ==>
           && o.entries[i].name == es[i].name && o.entries[i].size == es[i].size
           && o.entries[i].data == None && o.entries[i].metadataOnly
  {
    hide EncodeAll, LoadAll, AllLoaded, MetadataAll, LeftOver;
    k := LoadOfCutStream(es, c, Some(HeaderOf(es)));
    var o := LoadAll(EncodeAll(es)[..c], Some(HeaderOf(es)));
    assert forall i :: 0 <= i < k ==> o.entries[..k][i] == o.entries[i] && es[..k][i] == es[i];
  }
}
